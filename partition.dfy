// The two BSP partition strategies. Both fill the caller's front, span
// and back sets for a divider: Split passes the library's split on as it
// is; Divide keeps straddling faces whole and adds each of them to BOTH
// the front and the back set.
module PartitionStrategy {
  import opened Geometry

  /** The strategy object a BSP build is configured with. */
  datatype Policy = SplitPolicy | DividePolicy

  /** The front, span and back sets a strategy produces. */
  function Partition(lib: Library, policy: Policy, divider: Face, faces: FaceSet): Parts
  {
    match policy
    case SplitPolicy => lib.split(divider, faces)
    case DividePolicy =>
      var dv := lib.divide(divider, faces);
      Parts(Add(dv.front, dv.spanning), dv.span, Add(dv.back, dv.spanning))
  }

  /** `BSPSplitStrategy::Partition`: exactly the library's split. */
  method SplitPartition(lib: Library, divider: Face, faces: FaceSet) returns (front: FaceSet, span: FaceSet, back: FaceSet)
    requires faces != []
    ensures Parts(front, span, back) == lib.split(divider, faces)
    ensures Parts(front, span, back) == Partition(lib, SplitPolicy, divider, faces)
  {
    var p := lib.split(divider, faces);
    front, span, back := p.front, p.span, p.back;
  }

  /** `BSPDivideStrategy::Partition`: divide, then add the straddling
      faces to the front and to the back set. What `Divide` put in front
      and back is kept, as the first part of each; the span set is
      exactly the one `Divide` produced; every straddling face ends up on
      both sides. */
  method DividePartition(lib: Library, divider: Face, faces: FaceSet) returns (front: FaceSet, span: FaceSet, back: FaceSet)
    requires faces != []
    ensures var dv := lib.divide(divider, faces);
      span == dv.span &&
      |front| == |dv.front| + |dv.spanning| && |back| == |dv.back| + |dv.spanning| &&
      front[..|dv.front|] == dv.front && back[..|dv.back|] == dv.back &&
      (forall f :: f in dv.spanning ==> f in front && f in back)
    ensures Parts(front, span, back) == Partition(lib, DividePolicy, divider, faces)
  {
    var split: FaceSet;
    var dv := lib.divide(divider, faces);
    front, span, back, split := dv.front, dv.span, dv.back, dv.spanning;
    front := Add(front, split);
    back := Add(back, split);
    assert forall f :: f in split ==> f in front[|dv.front|..] && f in back[|dv.back|..];
  }

  /** The virtual call `GetPartitionStrategy()->Partition(...)`. */
  method PartitionBy(lib: Library, policy: Policy, divider: Face, faces: FaceSet)
    returns (front: FaceSet, span: FaceSet, back: FaceSet)
    requires faces != []
    ensures Parts(front, span, back) == Partition(lib, policy, divider, faces)
  {
    match policy
    case SplitPolicy => front, span, back := SplitPartition(lib, divider, faces);
    case DividePolicy => front, span, back := DividePartition(lib, divider, faces);
  }

  /** Partitioning by a face of the set keeps the divider in the span and
      leaves fewer faces on each side than in the input, under either
      strategy. This is what makes the BSP recursion terminate. */
  lemma PartitionShrinks(lib: Library, policy: Policy, divider: Face, faces: FaceSet)
    requires ValidLibrary(lib) && divider in faces
    ensures var p := Partition(lib, policy, divider, faces);
      divider in p.span && |p.front| < |faces| && |p.back| < |faces|
  {
    if policy.DividePolicy? {
      var dv := lib.divide(divider, faces);
      assert |dv.front| + |dv.spanning| < |faces|;
    } else {
      var sp := lib.split(divider, faces);
      assert |sp.front| < |faces|;
    }
  }

  /** Either strategy turns a set without repeated faces into front and
      back sets without repeated faces. */
  lemma PartitionKeepsSetsDistinct(lib: Library, policy: Policy, divider: Face, faces: FaceSet)
    requires ValidLibrary(lib) && Distinct(faces)
    ensures var p := Partition(lib, policy, divider, faces); Distinct(p.front) && Distinct(p.back)
  {
    if policy.DividePolicy? {
      var dv := lib.divide(divider, faces);
      assert Distinct(dv.front + dv.spanning);
    } else {
      var sp := lib.split(divider, faces);
      assert Distinct(sp.front);
    }
  }

  /** Under Divide no face is lost or invented: front, span and back
      together hold exactly the faces of the input. */
  lemma DivideKeepsEveryFace(lib: Library, divider: Face, faces: FaceSet)
    requires ValidLibrary(lib)
    ensures var p := Partition(lib, DividePolicy, divider, faces);
      Elems(p.front) + Elems(p.span) + Elems(p.back) == Elems(faces)
  {
    var dv := lib.divide(divider, faces);
    assert Elems(dv.front) + Elems(dv.span) + Elems(dv.back) + Elems(dv.spanning) == Elems(faces);
    assert Elems(dv.front + dv.spanning) == Elems(dv.front) + Elems(dv.spanning);
    assert Elems(dv.back + dv.spanning) == Elems(dv.back) + Elems(dv.spanning);
  }
}
