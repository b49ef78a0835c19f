// BSP tree nodes and their recursive construction. A node is built from
// a non-empty face set with the transformer's two strategies: find the
// divider, partition the set, wrap the span set in a geometry sub-node,
// and build a front and a back child from the front and back sets when
// they are non-empty.
module BspTree {
  import opened Wrappers
  import opened Geometry
  import opened Scene
  import opened FindDividerStrategy
  import opened PartitionStrategy

  /** The divider of a non-empty set and the partition of the set by it.
      Both sides are smaller than the set and keep its faces distinct,
      and the divider lies in the span (`PartitionShrinks`). */
  function Step(lib: Library, policy: Policy, faces: FaceSet): (p: Parts)
    requires ValidLibrary(lib) && Distinct(faces) && faces != []
    ensures |p.front| < |faces| && |p.back| < |faces|
    ensures Distinct(p.front) && Distinct(p.back)
    ensures Divider(lib.comparePosition, faces).value in p.span
  {
    var d := Divider(lib.comparePosition, faces).value;
    PartitionShrinks(lib, policy, d, faces);
    PartitionStrategy.PartitionKeepsSetsDistinct(lib, policy, d, faces);
    Partition(lib, policy, d, faces)
  }

  /** The BSP tree built from `faces` (the recursive constructor). */
  function Build(lib: Library, policy: Policy, faces: FaceSet): (n: Node)
    requires ValidLibrary(lib) && Distinct(faces) && faces != []
    ensures n.BSPNode?
    decreases |faces|
  {
    var p := Step(lib, policy, faces);
    BSPNode(Divider(lib.comparePosition, faces).value,
            if |p.front| > 0 then Some(Build(lib, policy, p.front)) else None,
            if |p.back| > 0 then Some(Build(lib, policy, p.back)) else None,
            p.span, [GeometryNode(p.span)])
  }

  /** The constructor as the source runs it. An empty set makes the
      divider search throw, and the construction with it. */
  method NewBSPNode(lib: Library, policy: Policy, faces: FaceSet) returns (r: Result<Node, DividerError>)
    requires ValidLibrary(lib) && Distinct(faces)
    ensures faces == [] ==> r == Err(EmptyFaceSet)
    ensures faces != [] ==> r == Ok(Build(lib, policy, faces))
    decreases |faces|
  {
    var found := FindDivider(lib.comparePosition, faces);
    if found.Err? {
      return Err(found.error);
    }
    var divider := found.value;
    var fset, span, bset := PartitionBy(lib, policy, divider, faces);
    PartitionShrinks(lib, policy, divider, faces);
    PartitionStrategy.PartitionKeepsSetsDistinct(lib, policy, divider, faces);
    var front: Option<Node> := None;
    var back: Option<Node> := None;
    if |fset| > 0 {
      var f := NewBSPNode(lib, policy, fset);
      front := Some(f.value);
    }
    if |bset| > 0 {
      var b := NewBSPNode(lib, policy, bset);
      back := Some(b.value);
    }
    // the geometry sub-node wraps the (now filled) span set
    r := Ok(BSPNode(divider, front, back, span, [GeometryNode(span)]));
  }

  /** One construction step: the divider is the find-divider strategy's
      choice on the set; the span and its geometry sub-node are the span
      of the partition by that divider; a front (back) child exists
      exactly when the partition's front (back) set is non-empty and is
      then built from that set with the same strategies. */
  lemma BuildStep(lib: Library, policy: Policy, faces: FaceSet)
    requires ValidLibrary(lib) && Distinct(faces) && faces != []
    ensures var n := Build(lib, policy, faces);
      var p := Partition(lib, policy, n.divider, faces);
      Divider(lib.comparePosition, faces) == Ok(n.divider) &&
      n.span == p.span && n.subNodes == [GeometryNode(p.span)] &&
      (n.front.Some? <==> p.front != []) && (n.back.Some? <==> p.back != []) &&
      (n.front.Some? ==> n.front.value == Build(lib, policy, p.front)) &&
      (n.back.Some? ==> n.back.value == Build(lib, policy, p.back))
  {
  }

  /** The shape every constructed node has: a BSP node whose only
      sub-node is the geometry node of its span, whose divider lies in
      its own span, and whose children have the same shape. */
  predicate WellFormed(n: Node)
  {
    n.BSPNode? && n.subNodes == [GeometryNode(n.span)] && n.divider in n.span &&
    (n.front.Some? ==> WellFormed(n.front.value)) &&
    (n.back.Some? ==> WellFormed(n.back.value))
  }

  lemma {:induction false} BuildWellFormed(lib: Library, policy: Policy, faces: FaceSet)
    requires ValidLibrary(lib) && Distinct(faces) && faces != []
    ensures WellFormed(Build(lib, policy, faces))
    decreases |faces|
  {
    var n := Build(lib, policy, faces);
    var p := Step(lib, policy, faces);
    if p.front != [] {
      BuildWellFormed(lib, policy, p.front);
    }
    if p.back != [] {
      BuildWellFormed(lib, policy, p.back);
    }
  }

  /** Number of BSP nodes on the longest front/back path. */
  function Height(n: Node): nat
  {
    if n.BSPNode? then 1 + Max(HeightOpt(n.front), HeightOpt(n.back)) else 0
  }

  function HeightOpt(o: Option<Node>): nat
  {
    if o.Some? then Height(o.value) else 0
  }

  /** The depth of a constructed tree is at most the number of faces it
      was built from (reached when the tree degenerates into a list). */
  lemma {:induction false} BuildHeightBounded(lib: Library, policy: Policy, faces: FaceSet)
    requires ValidLibrary(lib) && Distinct(faces) && faces != []
    ensures Height(Build(lib, policy, faces)) <= |faces|
    decreases |faces|
  {
    var n := Build(lib, policy, faces);
    var p := Step(lib, policy, faces);
    if p.front != [] {
      BuildHeightBounded(lib, policy, p.front);
      assert HeightOpt(n.front) < |faces|;
    } else {
      assert HeightOpt(n.front) == 0;
    }
    if p.back != [] {
      BuildHeightBounded(lib, policy, p.back);
      assert HeightOpt(n.back) < |faces|;
    } else {
      assert HeightOpt(n.back) == 0;
    }
  }

  /** With the Divide strategy the geometry of the tree (the span sets
      of its nodes) holds exactly the faces it was built from: none is
      lost, none is made up. */
  lemma {:induction false} DivideTreeKeepsEveryFace(lib: Library, faces: FaceSet)
    requires ValidLibrary(lib) && Distinct(faces) && faces != []
    ensures Faces(Build(lib, DividePolicy, faces)) == Elems(faces)
    decreases |faces|, 1
  {
    var n := Build(lib, DividePolicy, faces);
    var p := Step(lib, DividePolicy, faces);
    DivideChildFaces(lib, faces);
    DivideKeepsEveryFace(lib, n.divider, faces);
    SpanFaces(n);
  }

  /** The induction step of `DivideTreeKeepsEveryFace`: each child's tree
      holds the faces of its partition side. */
  lemma {:induction false} DivideChildFaces(lib: Library, faces: FaceSet)
    requires ValidLibrary(lib) && Distinct(faces) && faces != []
    ensures FacesOpt(Build(lib, DividePolicy, faces).front) == Elems(Step(lib, DividePolicy, faces).front)
    ensures FacesOpt(Build(lib, DividePolicy, faces).back) == Elems(Step(lib, DividePolicy, faces).back)
    decreases |faces|, 0
  {
    var p := Step(lib, DividePolicy, faces);
    var n := Build(lib, DividePolicy, faces);
    if p.front != [] {
      DivideTreeKeepsEveryFace(lib, p.front);
      assert n.front == Some(Build(lib, DividePolicy, p.front));
    } else {
      assert n.front == None;
    }
    if p.back != [] {
      DivideTreeKeepsEveryFace(lib, p.back);
      assert n.back == Some(Build(lib, DividePolicy, p.back));
    } else {
      assert n.back == None;
    }
  }

  lemma SpanFaces(n: Node)
    requires n.BSPNode? && n.subNodes == [GeometryNode(n.span)]
    ensures Faces(n) == FacesOpt(n.front) + Elems(n.span) + FacesOpt(n.back)
  {
    assert FacesList(n.subNodes) == Elems(n.span) + FacesList([]);
  }

  /** Cloning a constructed tree gives the same tree: front and back are
      cloned, the one sub-node is cloned, and `span` is rebound to the
      cloned sub-node's face set, which is the same set. */
  lemma {:induction false} CloneWellFormed(n: Node)
    requires WellFormed(n)
    ensures Cloneable(n) && Clone(n) == n
  {
    if n.front.Some? {
      CloneWellFormed(n.front.value);
    }
    if n.back.Some? {
      CloneWellFormed(n.back.value);
    }
  }
}
