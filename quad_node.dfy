// Quad tree nodes and their recursive construction. A node is built from
// a non-empty face set, a maximum leaf face count and a maximum leaf half
// size: when either limit is met the faces go into one geometry
// sub-node; otherwise the set is split in four by two axis planes through
// the centre of its bounding square and a child is built from each
// non-empty quarter.
module QuadTree {
  import opened Wrappers
  import opened Geometry
  import opened Scene

  /** The end condition of the recursive build: few enough faces, or a
      bounding square whose x and z half sizes are both small enough. */
  predicate IsLeaf(bb: Box, size: nat, count: int, hsize: real)
  {
    size <= count || (bb.halfX <= hsize && bb.halfZ <= hsize)
  }

  /** The four quarters of a face set. */
  datatype Quarters = Quarters(tl: FaceSet, tr: FaceSet, bl: FaceSet, br: FaceSet)

  /** A split whose front and span outputs are the same set: the faces
      in the divider's plane join the front faces. */
  function SplitInTwo(lib: Library, divider: Face, faces: FaceSet): (r: (FaceSet, FaceSet))
  {
    var p := lib.split(divider, faces);
    (p.front + p.span, p.back)
  }

  /** The horizontal split into top and bottom, then the vertical split
      of each into left and right. */
  function Quadrants(lib: Library, faces: FaceSet): Quarters
  {
    var bb := lib.boundingBox(faces);
    var (ft, fb) := SplitInTwo(lib, lib.horizontalDivider(bb), faces);
    var (ftl, ftr) := SplitInTwo(lib, lib.verticalDivider(bb), ft);
    var (fbl, fbr) := SplitInTwo(lib, lib.verticalDivider(bb), fb);
    Quarters(ftl, ftr, fbl, fbr)
  }

  /** What the recursive build assumes of the library to end: every
      quarter of a set that is not a leaf has a smaller bounding square
      (`extent`) than the set. */
  ghost predicate QuartersShrink(lib: Library, count: int, hsize: real)
  {
    forall fs: FaceSet {:trigger Quadrants(lib, fs)} ::
      fs != [] && !IsLeaf(lib.boundingBox(fs), |fs|, count, hsize) ==>
        var q := Quadrants(lib, fs);
        lib.extent(q.tl) < lib.extent(fs) && lib.extent(q.tr) < lib.extent(fs) &&
        lib.extent(q.bl) < lib.extent(fs) && lib.extent(q.br) < lib.extent(fs)
  }

  /** The quad tree built from `faces` (the recursive constructor). */
  function Build(lib: Library, faces: FaceSet, count: int, hsize: real): (n: Node)
    requires QuartersShrink(lib, count, hsize) && faces != []
    ensures n.QuadNode? && n.bb == lib.boundingBox(faces)
    decreases lib.extent(faces)
  {
    var bb := lib.boundingBox(faces);
    if IsLeaf(bb, |faces|, count, hsize) then
      QuadNode(bb, None, None, None, None, [GeometryNode(faces)])
    else
      var q := Quadrants(lib, faces);
      QuadNode(bb,
               if q.tl != [] then Some(Build(lib, q.tl, count, hsize)) else None,
               if q.tr != [] then Some(Build(lib, q.tr, count, hsize)) else None,
               if q.bl != [] then Some(Build(lib, q.bl, count, hsize)) else None,
               if q.br != [] then Some(Build(lib, q.br, count, hsize)) else None,
               [])
  }

  /** The constructor as the source runs it: the leaf test on the bounding
      square, the two dividers, the split into top and bottom and of each
      into left and right, then a child for each non-empty quarter. */
  method NewQuadNode(lib: Library, faces: FaceSet, count: int, hsize: real) returns (n: Node)
    requires QuartersShrink(lib, count, hsize) && faces != []
    ensures n == Build(lib, faces, count, hsize)
    decreases lib.extent(faces)
  {
    var bb := lib.boundingBox(faces);
    var tl, tr, bl, br: Option<Node> := None, None, None, None;
    var sizeX, sizeZ := bb.halfX, bb.halfZ;
    if |faces| <= count || (sizeX <= hsize && sizeZ <= hsize) {
      n := QuadNode(bb, tl, tr, bl, br, [GeometryNode(faces)]);
      return;
    }
    var horiz := lib.horizontalDivider(bb);
    var verti := lib.verticalDivider(bb);
    var ft, fb := SplitInTwo(lib, horiz, faces).0, SplitInTwo(lib, horiz, faces).1;
    var ftl, ftr := SplitInTwo(lib, verti, ft).0, SplitInTwo(lib, verti, ft).1;
    var fbl, fbr := SplitInTwo(lib, verti, fb).0, SplitInTwo(lib, verti, fb).1;
    assert Quadrants(lib, faces) == Quarters(ftl, ftr, fbl, fbr);
    if |ftl| != 0 {
      var c := NewQuadNode(lib, ftl, count, hsize);
      tl := Some(c);
    }
    if |ftr| != 0 {
      var c := NewQuadNode(lib, ftr, count, hsize);
      tr := Some(c);
    }
    if |fbl| != 0 {
      var c := NewQuadNode(lib, fbl, count, hsize);
      bl := Some(c);
    }
    if |fbr| != 0 {
      var c := NewQuadNode(lib, fbr, count, hsize);
      br := Some(c);
    }
    n := QuadNode(bb, tl, tr, bl, br, []);
  }

  /** The shape of a constructed quad tree: a leaf holds its faces (a
      non-empty set that meets the end condition) in its only sub-node
      and has no children; an inner node fails the end condition, has no
      sub-nodes, and its present children have the same shape. */
  predicate WellFormed(n: Node, count: int, hsize: real)
  {
    n.QuadNode? &&
    if n.subNodes != [] then
      n.tl.None? && n.tr.None? && n.bl.None? && n.br.None? &&
      |n.subNodes| == 1 && n.subNodes[0].GeometryNode? && n.subNodes[0].faces != [] &&
      IsLeaf(n.bb, |n.subNodes[0].faces|, count, hsize)
    else
      !(n.bb.halfX <= hsize && n.bb.halfZ <= hsize) &&
      (n.tl.Some? ==> WellFormed(n.tl.value, count, hsize)) &&
      (n.tr.Some? ==> WellFormed(n.tr.value, count, hsize)) &&
      (n.bl.Some? ==> WellFormed(n.bl.value, count, hsize)) &&
      (n.br.Some? ==> WellFormed(n.br.value, count, hsize))
  }

  /** One construction step: the node is a leaf exactly when the end
      condition holds on the input set, a leaf holds that set, and a
      child exists exactly for each non-empty quarter, built from it with
      the same limits. */
  lemma BuildStep(lib: Library, faces: FaceSet, count: int, hsize: real)
    requires QuartersShrink(lib, count, hsize) && faces != []
    ensures var n := Build(lib, faces, count, hsize);
      var q := Quadrants(lib, faces);
      (n.subNodes != [] <==> IsLeaf(lib.boundingBox(faces), |faces|, count, hsize)) &&
      (n.subNodes != [] ==> n.subNodes == [GeometryNode(faces)] &&
                            n.tl.None? && n.tr.None? && n.bl.None? && n.br.None?) &&
      (n.subNodes == [] ==>
         (n.tl.Some? <==> q.tl != []) && (n.tr.Some? <==> q.tr != []) &&
         (n.bl.Some? <==> q.bl != []) && (n.br.Some? <==> q.br != []) &&
         (n.tl.Some? ==> n.tl.value == Build(lib, q.tl, count, hsize)) &&
         (n.tr.Some? ==> n.tr.value == Build(lib, q.tr, count, hsize)) &&
         (n.bl.Some? ==> n.bl.value == Build(lib, q.bl, count, hsize)) &&
         (n.br.Some? ==> n.br.value == Build(lib, q.br, count, hsize)))
  {
  }

  lemma {:induction false} BuildWellFormed(lib: Library, faces: FaceSet, count: int, hsize: real)
    requires QuartersShrink(lib, count, hsize) && faces != []
    ensures WellFormed(Build(lib, faces, count, hsize), count, hsize)
    decreases lib.extent(faces)
  {
    var bb := lib.boundingBox(faces);
    if !IsLeaf(bb, |faces|, count, hsize) {
      var q := Quadrants(lib, faces);
      if q.tl != [] { BuildWellFormed(lib, q.tl, count, hsize); }
      if q.tr != [] { BuildWellFormed(lib, q.tr, count, hsize); }
      if q.bl != [] { BuildWellFormed(lib, q.bl, count, hsize); }
      if q.br != [] { BuildWellFormed(lib, q.br, count, hsize); }
    }
  }

  /** A node is a leaf exactly when it has one sub-node (the property the
      hybrid builder tests to find leaves). */
  lemma WellFormedLeafIff(n: Node, count: int, hsize: real)
    requires WellFormed(n, count, hsize)
    ensures |n.subNodes| == 1 <==> (n.tl.None? && n.tr.None? && n.bl.None? && n.br.None? && n.subNodes != [])
  {
  }

  /** Cloning a constructed tree gives the same tree: the bounding square
      is copied, each present child is cloned, the leaf geometry is cloned. */
  lemma {:induction false} CloneWellFormed(n: Node, count: int, hsize: real)
    requires WellFormed(n, count, hsize)
    ensures Cloneable(n) && Clone(n) == n
  {
    if n.subNodes != [] {
      assert CloneList(n.subNodes) == [Clone(n.subNodes[0])] + CloneList([]);
    } else {
      CloneChildWellFormed(n.tl, count, hsize);
      CloneChildWellFormed(n.tr, count, hsize);
      CloneChildWellFormed(n.bl, count, hsize);
      CloneChildWellFormed(n.br, count, hsize);
      assert CloneList(n.subNodes) == [];
    }
  }

  lemma {:induction false} CloneChildWellFormed(o: Option<Node>, count: int, hsize: real)
    requires o.Some? ==> WellFormed(o.value, count, hsize)
    ensures CloneableOpt(o) && CloneOpt(o) == o
    decreases o
  {
    if o.Some? {
      CloneWellFormed(o.value, count, hsize);
    }
  }

  /** A child pointer of a copied quad node: null, pointing to a node, or
      never written (indeterminate). */
  datatype ChildSlot = Null | Points(node: Node) | Indeterminate

  /** The copy constructor as written: a child pointer is assigned only
      when the original's child is present, and the member is not in the
      initialiser list, so a missing child leaves it indeterminate. */
  function CopyChildAsWritten(o: Option<Node>): (r: ChildSlot)
    requires CloneableOpt(o)
  {
    if o.Some? then Points(Clone(o.value)) else Indeterminate
  }

  /** The copy constructor as intended: a missing child stays null. */
  function CopyChild(o: Option<Node>): (r: ChildSlot)
    requires CloneableOpt(o)
  {
    if o.Some? then Points(Clone(o.value)) else Null
  }

  /** The four child slots of a copied node. */
  function CopySlotsAsWritten(n: Node): (r: seq<ChildSlot>)
    requires n.QuadNode? && Cloneable(n)
    ensures |r| == 4
  {
    [CopyChildAsWritten(n.tl), CopyChildAsWritten(n.tr), CopyChildAsWritten(n.bl), CopyChildAsWritten(n.br)]
  }

  function CopySlots(n: Node): (r: seq<ChildSlot>)
    requires n.QuadNode? && Cloneable(n)
    ensures |r| == 4
  {
    [CopyChild(n.tl), CopyChild(n.tr), CopyChild(n.bl), CopyChild(n.br)]
  }

  /** The slot a clone's child has in the model's `Clone`. */
  function Slot(o: Option<Node>): ChildSlot
  {
    if o.Some? then Points(o.value) else Null
  }

  /** Copying a leaf (no children) as written leaves all four child
      pointers indeterminate, which the copy's `VisitSubNodes` then
      compares against null and follows. */
  lemma CopyOfLeafAsWrittenIsIndeterminate(lib: Library, faces: FaceSet, count: int, hsize: real)
    requires QuartersShrink(lib, count, hsize) && faces != []
    requires IsLeaf(lib.boundingBox(faces), |faces|, count, hsize)
    ensures var n := Build(lib, faces, count, hsize);
      Cloneable(n) && forall i :: 0 <= i < 4 ==> CopySlotsAsWritten(n)[i] == Indeterminate
  {
  }

  /** The intended copy agrees with `Clone` on every slot: a present child
      is cloned, a missing one is null. */
  lemma {:induction false} CopySlotsMatchClone(n: Node)
    requires n.QuadNode? && Cloneable(n)
    ensures CopySlots(n) == [Slot(Clone(n).tl), Slot(Clone(n).tr), Slot(Clone(n).bl), Slot(Clone(n).br)]
    ensures forall i :: 0 <= i < 4 ==> CopySlots(n)[i] != Indeterminate
  {
  }
}
