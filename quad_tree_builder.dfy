// The quad tree builder: the scene is cloned into a fresh container, its
// geometry is collected into one geometry node, a quad transformer set up
// with the builder's limits turns that node into a quad tree, and the tree
// is taken out of the container when it is the container's only child.
module QuadTreeBuilder {
  import opened Wrappers
  import opened Geometry
  import opened Scene
  import QuadTree
  import QuadTransformer

  /** The tree a builder with these limits returns for `node`: the quad
      tree of the faces of the cloned scene in visiting order, each face
      once; none when the scene holds no face. */
  function Built(lib: Library, count: int, hsize: real, node: Node): (r: Option<Node>)
    requires QuadTree.QuartersShrink(lib, count, hsize) && Cloneable(node)
  {
    var faces := Dedup(AllFaces(Clone(node)));
    if faces == [] then None else Some(QuadTree.Build(lib, faces, count, hsize))
  }

  /** A builder with its two limits. `hsize` holds half the size it was
      given, as the quad transformer's does. */
  class Builder {
    var count: int
    var hsize: real

    /** The defaults are a count of 100 and a size of 10. */
    constructor(count: int := 100, size: real := 10.0)
      ensures this.count == count && hsize == size / 2.0
    {
      this.count, hsize := count, size / 2.0;
    }

    method SetMaxFaceCount(count: int)
      modifies this
      ensures this.count == count && hsize == old(hsize)
    {
      this.count := count;
    }

    method SetMaxQuadSize(size: real)
      modifies this
      ensures hsize == size / 2.0 && count == old(count)
    {
      hsize := size / 2.0;
    }

    /** `Build`. The stored half size is handed to the transformer's
        `SetMaxQuadSize`, which halves it again: the leaves are bounded
        by `hsize / 2`, a quarter of the size the builder was given. The
        result is a constructed quad tree, or none when the scene holds no
        face. */
    method Build(lib: Library, node: Node) returns (r: Option<Node>)
      requires QuadTree.QuartersShrink(lib, count, hsize / 2.0) && Cloneable(node)
      ensures r == Built(lib, count, hsize / 2.0, node)
      ensures r.None? <==> AllFaces(Clone(node)) == []
      ensures r.Some? ==> QuadTree.WellFormed(r.value, count, hsize / 2.0)
    {
      var maxCount, maxSize := count, hsize;
      var quad := new QuadTransformer.Transformer();
      quad.SetMaxFaceCount(maxCount);
      quad.SetMaxQuadSize(maxSize);
      // clone the scene in a new container
      var clone := SceneNode([Clone(node)]);
      // transform: collect, then quad
      clone := Collect(clone);
      ghost var container := Collect(SceneNode([Clone(node)]));
      assert clone == container;
      clone := quad.Transform(lib, clone);
      assert clone == QuadTransformer.Visit(lib, maxCount, maxSize / 2.0, container);
      Extracted(lib, maxCount, maxSize / 2.0, node, clone.subNodes);
      // validate: only a single quad child is a result
      r := None;
      if |clone.subNodes| == 1 && clone.subNodes[0].QuadNode? {
        r := Some(clone.subNodes[0]);
      }
    }
  }

  /** The container after collecting and the quad visit: it holds the quad
      tree of the collected faces, or nothing when there are none (the
      empty geometry node is deleted). */
  lemma CollectThenQuad(lib: Library, count: int, hsize: real, node: Node)
    requires QuadTree.QuartersShrink(lib, count, hsize) && Cloneable(node)
    ensures var faces := Dedup(AllFaces(Clone(node)));
      QuadTransformer.Visit(lib, count, hsize, Collect(SceneNode([Clone(node)]))).subNodes ==
      (if faces == [] then [] else [QuadTree.Build(lib, faces, count, hsize)])
  {
    var faces := Dedup(AllFaces(Clone(node)));
    ContainerFaces(Clone(node));
    assert Collect(SceneNode([Clone(node)])).subNodes == [GeometryNode(faces)];
    assert [GeometryNode(faces)][1..] == [];
    assert QuadTransformer.ReplaceAll(lib, count, hsize, [GeometryNode(faces)]) ==
           QuadTransformer.Entry(lib, count, hsize, GeometryNode(faces));
  }

  /** What the validation step finds in the container: a single quad child
      exactly when the scene has a face, and then it is the built tree. */
  lemma Extracted(lib: Library, count: int, hsize: real, node: Node, subs: seq<Node>)
    requires QuadTree.QuartersShrink(lib, count, hsize) && Cloneable(node)
    requires subs == QuadTransformer.Visit(lib, count, hsize, Collect(SceneNode([Clone(node)]))).subNodes
    ensures (|subs| == 1 && subs[0].QuadNode?) <==> AllFaces(Clone(node)) != []
    ensures |subs| == 1 && subs[0].QuadNode? ==>
      Built(lib, count, hsize, node) == Some(subs[0]) && QuadTree.WellFormed(subs[0], count, hsize)
    ensures !(|subs| == 1 && subs[0].QuadNode?) ==> Built(lib, count, hsize, node) == None
  {
    var faces := Dedup(AllFaces(Clone(node)));
    CollectThenQuad(lib, count, hsize, node);
    if faces != [] {
      QuadTree.BuildWellFormed(lib, faces, count, hsize);
    }
  }
}
