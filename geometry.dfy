// The geometry library the trees are built with (faces, face sets,
// bounding boxes, plane classification and face-set partitioning).
// The library itself is floating-point code outside this model: its
// operations are the fields of `Library`, and what the tree code relies
// on is stated by the ghost predicates at the end of this module.
module Geometry {

  /** A face, compared by identity (the source compares face pointers). */
  datatype Face = Face(id: nat)

  /** A face set. The source keeps its faces in a list and every loop
      over it follows that order, so the order is part of the model. */
  type FaceSet = seq<Face>

  /** The faces of a set, as a mathematical set. */
  function Elems(s: FaceSet): set<Face>
  {
    set f | f in s
  }

  lemma ElemsConcat(s: FaceSet, t: FaceSet)
    ensures Elems(s + t) == Elems(s) + Elems(t)
  {
  }

  /** No face occurs twice: a face set holds each face at most once. */
  predicate Distinct(s: FaceSet)
  {
    forall i, j :: 0 <= i < j < |s| ==> s[i] != s[j]
  }

  /** `FaceSet::Add`: the faces of `t` appended to `s`. Repeats are not
      dropped. The sets joined here are disjoint, because
      `SplitAndDivideKeepDistinct` keeps partition sides distinct. On
      them this agrees with the append-then-`Dedup` union that
      `Scene.Collect` uses. */
  function Add(s: FaceSet, t: FaceSet): (r: FaceSet)
    ensures |r| == |s| + |t|
    ensures r[..|s|] == s && r[|s|..] == t
  {
    s + t
  }

  type Sign = s: int | -1 <= s <= 1

  /** The sign triple returned by `Face::ComparePosition`. */
  datatype Position = Position(a: Sign, b: Sign, c: Sign)

  /** The three outputs of `FaceSet::Split`: faces in front of the
      divider's plane, faces in the plane (span), faces behind it.
      A face straddling the plane is cut and its parts go front and back. */
  datatype Parts = Parts(front: FaceSet, span: FaceSet, back: FaceSet)

  /** The outputs of `FaceSet::Divide`: as `Parts`, except that a face
      straddling the plane is not cut but reported in `spanning`. */
  datatype Division = Division(front: FaceSet, span: FaceSet, back: FaceSet, spanning: FaceSet)

  /** A bounding square: its centre and its half sizes on the x and z axes
      (`Box::GetCenter`, `Box::GetCorner`). */
  datatype Box = Box(centerX: real, centerZ: real, halfX: real, halfZ: real)

  /** The library operations the tree code calls. `extent` is not a library
      call: it is an abstract size of a face set's bounding square that the
      quad tree's termination argument is stated with. */
  datatype Library = Library(
    comparePosition: (Face, Face) -> Position,   // ftest->ComparePosition(fcomp)
    split: (Face, FaceSet) -> Parts,             // faces.Split(divider, ...)
    divide: (Face, FaceSet) -> Division,         // faces.Divide(divider, ...)
    boundingBox: FaceSet -> Box,                 // Box(faces)
    horizontalDivider: Box -> Face,              // the plane z = centre z
    verticalDivider: Box -> Face,                // the plane x = centre x
    extent: FaceSet -> nat)

  /** Splitting by a face of the set keeps that face in the span and leaves
      each side with fewer faces than the input (every input face adds at
      most one piece to each side, and the divider adds none). */
  ghost predicate SplitShrinks(lib: Library)
  {
    forall d: Face, fs: FaceSet {:trigger lib.split(d, fs)} :: d in fs ==>
      d in lib.split(d, fs).span &&
      |lib.split(d, fs).front| < |fs| && |lib.split(d, fs).back| < |fs|
  }

  /** The same for dividing, counting each straddling face on both sides. */
  ghost predicate DivideShrinks(lib: Library)
  {
    forall d: Face, fs: FaceSet {:trigger lib.divide(d, fs)} :: d in fs ==>
      d in lib.divide(d, fs).span &&
      |lib.divide(d, fs).front| + |lib.divide(d, fs).spanning| < |fs| &&
      |lib.divide(d, fs).back| + |lib.divide(d, fs).spanning| < |fs|
  }

  /** Partitioning a set without repeated faces gives sets without
      repeated faces; a straddling face reported by `Divide` is in
      neither its front nor its back output. */
  ghost predicate SplitAndDivideKeepDistinct(lib: Library)
  {
    (forall d: Face, fs: FaceSet {:trigger lib.split(d, fs)} :: Distinct(fs) ==>
       Distinct(lib.split(d, fs).front) && Distinct(lib.split(d, fs).back)) &&
    (forall d: Face, fs: FaceSet {:trigger lib.divide(d, fs)} :: Distinct(fs) ==>
       Distinct(lib.divide(d, fs).front + lib.divide(d, fs).spanning) &&
       Distinct(lib.divide(d, fs).back + lib.divide(d, fs).spanning))
  }

  /** `Divide` never creates or drops a face: every input face is in
      exactly the union of its four outputs. */
  ghost predicate DivideConserves(lib: Library)
  {
    forall d: Face, fs: FaceSet {:trigger lib.divide(d, fs)} ::
      Elems(lib.divide(d, fs).front) + Elems(lib.divide(d, fs).span) +
      Elems(lib.divide(d, fs).back) + Elems(lib.divide(d, fs).spanning) == Elems(fs)
  }

  /** Everything the BSP construction assumes of the library. */
  ghost predicate ValidLibrary(lib: Library)
  {
    SplitShrinks(lib) && DivideShrinks(lib) && SplitAndDivideKeepDistinct(lib) && DivideConserves(lib)
  }
}
