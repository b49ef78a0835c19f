// The BSP tree builder: the scene is cloned into a fresh container, its
// geometry is collected into one geometry node, the BSP transformer
// turns that node into a BSP tree, and the tree is taken out of the
// container when it is the container's only child.
module BspTreeBuilder {
  import opened Wrappers
  import opened Geometry
  import opened Scene
  import opened PartitionStrategy
  import opened BspTree
  import opened BspTransformer

  /** The tree the builder returns for `node`: the BSP tree of the faces
      of the cloned scene in visiting order, each face once; none when
      the scene holds no face. */
  function Built(lib: Library, policy: Policy, node: Node): (r: Option<Node>)
    requires ValidLibrary(lib) && Cloneable(node)
  {
    var faces := Dedup(AllFaces(Clone(node)));
    if faces == [] then None else Some(BspTree.Build(lib, policy, faces))
  }

  /** `Build`: the BSP tree of everything the scene holds, or none when
      the scene holds no face. The scene itself is a value and is not
      changed. The tree has the shape every constructed tree has, and
      under the Divide strategy it holds exactly the faces of the cloned
      scene. */
  method Build(lib: Library, policy: Policy, node: Node) returns (r: Option<Node>)
    requires ValidLibrary(lib) && Cloneable(node)
    ensures r == Built(lib, policy, node)
    ensures r.None? <==> AllFaces(Clone(node)) == []
    ensures r.Some? ==> WellFormed(r.value)
    ensures r.Some? && policy == DividePolicy ==> Faces(r.value) == Faces(Clone(node))
  {
    // clone the scene in a new container
    var clone := SceneNode([Clone(node)]);
    ContainerFaces(Clone(node));
    // transform: collect, then BSP
    clone := Collect(clone);
    var faces := clone.subNodes[0].faces;
    assert Walk(clone.subNodes[0]) == [clone.subNodes[0]];
    clone := Transform(lib, policy, clone);
    // validate: only a single BSP child is a result
    r := None;
    if |clone.subNodes| == 1 && clone.subNodes[0].BSPNode? {
      r := Some(clone.subNodes[0]);
      BuildWellFormed(lib, policy, faces);
      if policy == DividePolicy {
        DivideTreeKeepsEveryFace(lib, faces);
        AllFacesElems(Clone(node));
      }
    }
  }
}
