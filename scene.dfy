// The scene graph the trees live in. The generic scene-node container
// (sub-node lists, cloning, the default visit) is outside this model; it
// is modelled here as values: a node owns its sub-nodes, and replacing,
// deleting or adding a sub-node builds a new list.
module Scene {
  import opened Wrappers
  import opened Geometry

  /** The node kinds the tree code deals with.
      - GeometryNode: a leaf holding a face set.
      - SceneNode: a plain container of sub-nodes.
      - QuadNode: bounding square, four optional quadrant children, sub-nodes.
      - BSPNode: dividing face, optional front and back children, the face
        set `span` of faces in the dividing plane, and sub-nodes (one
        geometry node wrapping `span` after construction). */
  datatype Node =
    | GeometryNode(faces: FaceSet)
    | SceneNode(subNodes: seq<Node>)
    | QuadNode(bb: Box, tl: Option<Node>, tr: Option<Node>, bl: Option<Node>, br: Option<Node>,
               subNodes: seq<Node>)
    | BSPNode(divider: Face, front: Option<Node>, back: Option<Node>, span: FaceSet,
              subNodes: seq<Node>)

  /** A present child as a one-element list, a missing one (NULL) as none. */
  function Opt(o: Option<Node>): (r: seq<Node>)
    ensures |r| <= 1 && (r == [] <==> o.None?)
  {
    if o.Some? then [o.value] else []
  }

  /** The order in which `VisitSubNodes` hands a node's children to a
      visitor: a BSP node its front, its sub-nodes, then its back; a quad
      node its top-left, top-right, bottom-left and bottom-right
      quadrants, then its sub-nodes; a container its sub-nodes. */
  function SubNodeOrder(n: Node): (r: seq<Node>)
    ensures forall c :: c in r ==> c < n
    ensures n.BSPNode? ==> |r| == |Opt(n.front)| + |n.subNodes| + |Opt(n.back)|
    ensures n.QuadNode? ==> |r| == |Opt(n.tl)| + |Opt(n.tr)| + |Opt(n.bl)| + |Opt(n.br)| + |n.subNodes|
  {
    match n
    case GeometryNode(_) => []
    case SceneNode(subs) => subs
    case QuadNode(_, tl, tr, bl, br, subs) => Opt(tl) + Opt(tr) + Opt(bl) + Opt(br) + subs
    case BSPNode(_, front, back, _, subs) => Opt(front) + subs + Opt(back)
  }

  /** Every node a visitor that overrides nothing reaches, in visiting
      order: the node, then the walks of its children in `SubNodeOrder`. */
  function Walk(n: Node): (r: seq<Node>)
    ensures |r| >= 1 && r[0] == n
  {
    [n] + match n
      case GeometryNode(_) => []
      case SceneNode(subs) => WalkList(subs)
      case QuadNode(_, tl, tr, bl, br, subs) =>
        WalkOpt(tl) + WalkOpt(tr) + WalkOpt(bl) + WalkOpt(br) + WalkList(subs)
      case BSPNode(_, front, back, _, subs) => WalkOpt(front) + WalkList(subs) + WalkOpt(back)
  }

  function WalkOpt(o: Option<Node>): seq<Node>
  {
    if o.Some? then Walk(o.value) else []
  }

  function WalkList(cs: seq<Node>): seq<Node>
  {
    if cs == [] then [] else Walk(cs[0]) + WalkList(cs[1..])
  }

  /** The faces of the geometry nodes in a node list, in list order. */
  function GeometryFaces(ns: seq<Node>): FaceSet
  {
    if ns == [] then []
    else (if ns[0].GeometryNode? then ns[0].faces else []) + GeometryFaces(ns[1..])
  }

  /** Every face held by a geometry node reachable from `n`, in visiting order. */
  function AllFaces(n: Node): FaceSet
  {
    GeometryFaces(Walk(n))
  }

  /** The faces held by the geometry nodes reachable from `n`, as a set. */
  function Faces(n: Node): set<Face>
  {
    match n
    case GeometryNode(fs) => Elems(fs)
    case SceneNode(subs) => FacesList(subs)
    case QuadNode(_, tl, tr, bl, br, subs) =>
      FacesOpt(tl) + FacesOpt(tr) + FacesOpt(bl) + FacesOpt(br) + FacesList(subs)
    case BSPNode(_, front, back, _, subs) => FacesOpt(front) + FacesList(subs) + FacesOpt(back)
  }

  function FacesOpt(o: Option<Node>): set<Face>
  {
    if o.Some? then Faces(o.value) else {}
  }

  function FacesList(cs: seq<Node>): set<Face>
  {
    if cs == [] then {} else Faces(cs[0]) + FacesList(cs[1..])
  }

  lemma {:induction false} GeometryFacesConcat(a: seq<Node>, b: seq<Node>)
    ensures GeometryFaces(a + b) == GeometryFaces(a) + GeometryFaces(b)
  {
    if a == [] {
      assert a + b == b;
    } else {
      assert (a + b)[0] == a[0];
      assert (a + b)[1..] == a[1..] + b;
      GeometryFacesConcat(a[1..], b);
    }
  }

  /** The ordered face list a visit collects holds exactly the faces of
      the reachable geometry nodes. */
  lemma {:induction false} AllFacesElems(n: Node)
    ensures Elems(AllFaces(n)) == Faces(n)
  {
    match n
    case GeometryNode(fs) =>
      assert Walk(n) == [n];
      assert GeometryFaces([n]) == fs + GeometryFaces([]);
    case SceneNode(subs) =>
      assert Walk(n) == [n] + WalkList(subs);
      GeometryFacesConcat([n], WalkList(subs));
      WalkListFaces(subs);
    case QuadNode(_, tl, tr, bl, br, subs) =>
      AllFacesQuad(n);
    case BSPNode(_, front, back, _, subs) =>
      AllFacesBsp(n);
  }

  lemma {:induction false} AllFacesQuad(n: Node)
    requires n.QuadNode?
    ensures Elems(AllFaces(n)) == Faces(n)
    decreases n, 0
  {
    var w1 := WalkOpt(n.tl) + WalkOpt(n.tr);
    var w2 := w1 + WalkOpt(n.bl);
    var w3 := w2 + WalkOpt(n.br);
    var w := w3 + WalkList(n.subNodes);
    assert Walk(n) == [n] + w;
    GeometryFacesConcat([n], w);
    assert GeometryFaces([n]) == [];
    WalkOptFaces(n.tl);
    WalkOptFaces(n.tr);
    WalkOptFaces(n.bl);
    WalkOptFaces(n.br);
    WalkListFaces(n.subNodes);
    assert Elems(GeometryFaces(w1)) == FacesOpt(n.tl) + FacesOpt(n.tr) by {
      GeometryFacesConcat(WalkOpt(n.tl), WalkOpt(n.tr));
      ElemsConcat(GeometryFaces(WalkOpt(n.tl)), GeometryFaces(WalkOpt(n.tr)));
    }
    assert Elems(GeometryFaces(w2)) == Elems(GeometryFaces(w1)) + FacesOpt(n.bl) by {
      GeometryFacesConcat(w1, WalkOpt(n.bl));
      ElemsConcat(GeometryFaces(w1), GeometryFaces(WalkOpt(n.bl)));
    }
    assert Elems(GeometryFaces(w3)) == Elems(GeometryFaces(w2)) + FacesOpt(n.br) by {
      GeometryFacesConcat(w2, WalkOpt(n.br));
      ElemsConcat(GeometryFaces(w2), GeometryFaces(WalkOpt(n.br)));
    }
    assert Elems(GeometryFaces(w)) == Elems(GeometryFaces(w3)) + FacesList(n.subNodes) by {
      GeometryFacesConcat(w3, WalkList(n.subNodes));
      ElemsConcat(GeometryFaces(w3), GeometryFaces(WalkList(n.subNodes)));
    }
  }

  lemma {:induction false} AllFacesBsp(n: Node)
    requires n.BSPNode?
    ensures Elems(AllFaces(n)) == Faces(n)
    decreases n, 0
  {
    var w1 := WalkOpt(n.front) + WalkList(n.subNodes);
    var w := w1 + WalkOpt(n.back);
    assert Walk(n) == [n] + w;
    GeometryFacesConcat([n], w);
    GeometryFacesConcat(w1, WalkOpt(n.back));
    GeometryFacesConcat(WalkOpt(n.front), WalkList(n.subNodes));
    WalkOptFaces(n.front);
    WalkOptFaces(n.back);
    WalkListFaces(n.subNodes);
  }

  lemma {:induction false} WalkOptFaces(o: Option<Node>)
    ensures Elems(GeometryFaces(WalkOpt(o))) == FacesOpt(o)
  {
    if o.Some? {
      AllFacesElems(o.value);
    }
  }

  lemma {:induction false} WalkListFaces(cs: seq<Node>)
    ensures Elems(GeometryFaces(WalkList(cs))) == FacesList(cs)
  {
    if cs != [] {
      GeometryFacesConcat(Walk(cs[0]), WalkList(cs[1..]));
      AllFacesElems(cs[0]);
      WalkListFaces(cs[1..]);
    }
  }

  /** A container's only child contributes all of the container's faces. */
  lemma ContainerFaces(c: Node)
    ensures AllFaces(SceneNode([c])) == AllFaces(c)
  {
    var box := SceneNode([c]);
    assert WalkList([c]) == Walk(c) + WalkList([]);
    assert Walk(box) == [box] + Walk(c);
    GeometryFacesConcat([box], Walk(c));
    assert GeometryFaces([box]) == [];
  }

  /** Every face set reachable from `n` holds each face at most once. */
  predicate SetsDistinct(n: Node)
  {
    match n
    case GeometryNode(fs) => Distinct(fs)
    case SceneNode(subs) => forall i :: 0 <= i < |subs| ==> SetsDistinct(subs[i])
    case QuadNode(_, tl, tr, bl, br, subs) =>
      SetsDistinctOpt(tl) && SetsDistinctOpt(tr) && SetsDistinctOpt(bl) && SetsDistinctOpt(br) &&
      forall i :: 0 <= i < |subs| ==> SetsDistinct(subs[i])
    case BSPNode(_, front, back, _, subs) =>
      SetsDistinctOpt(front) && SetsDistinctOpt(back) &&
      forall i :: 0 <= i < |subs| ==> SetsDistinct(subs[i])
  }

  predicate SetsDistinctOpt(o: Option<Node>)
  {
    o.Some? ==> SetsDistinct(o.value)
  }

  /** The faces of `s` with later repetitions dropped, first occurrences
      kept in order: adding faces to a face set never repeats a face. */
  function Dedup(s: FaceSet): (r: FaceSet)
    ensures Distinct(r) && Elems(r) == Elems(s)
    ensures r == [] <==> s == []
  {
    if s == [] then []
    else
      var rest := Dedup(s[..|s| - 1]);
      assert Elems(s) == Elems(s[..|s| - 1]) + {s[|s| - 1]} by {
        assert s == s[..|s| - 1] + [s[|s| - 1]];
      }
      if s[|s| - 1] in rest then rest else rest + [s[|s| - 1]]
  }

  /** The collecting transformer: the geometry under a container is
      gathered into one geometry node, which becomes its only sub-node. */
  function Collect(container: Node): (r: Node)
    ensures r.SceneNode? && |r.subNodes| == 1 && r.subNodes[0].GeometryNode?
    ensures Elems(r.subNodes[0].faces) == Elems(AllFaces(container))
    ensures Distinct(r.subNodes[0].faces)
  {
    SceneNode([GeometryNode(Dedup(AllFaces(container)))])
  }

  /** What cloning needs: `BSPNode::Clone` clones the first sub-node of
      every BSP node and reads it as a geometry node. */
  predicate Cloneable(n: Node)
  {
    match n
    case GeometryNode(_) => true
    case SceneNode(subs) => forall i :: 0 <= i < |subs| ==> Cloneable(subs[i])
    case QuadNode(_, tl, tr, bl, br, subs) =>
      CloneableOpt(tl) && CloneableOpt(tr) && CloneableOpt(bl) && CloneableOpt(br) &&
      forall i :: 0 <= i < |subs| ==> Cloneable(subs[i])
    case BSPNode(_, front, back, _, subs) =>
      |subs| >= 1 && subs[0].GeometryNode? && CloneableOpt(front) && CloneableOpt(back)
  }

  predicate CloneableOpt(o: Option<Node>)
  {
    o.Some? ==> Cloneable(o.value)
  }

  /** The copy constructor of a BSP node: divider, front, back and span
      are shared with the original; the new node has no sub-nodes. */
  function ShallowCopy(n: Node): (r: Node)
    requires n.BSPNode?
    ensures r.BSPNode? && r.subNodes == []
    ensures r.divider == n.divider && r.front == n.front && r.back == n.back && r.span == n.span
  {
    BSPNode(n.divider, n.front, n.back, n.span, [])
  }

  /** A deep copy. A BSP node is copied shallowly, its front and back are
      replaced by their clones, the clone of its FIRST sub-node becomes
      the only sub-node and `span` is rebound to that clone's face set.
      A quad node copies its bounding square and clones each present
      quadrant and its sub-nodes. */
  function Clone(n: Node): (r: Node)
    requires Cloneable(n)
    ensures r.GeometryNode? <==> n.GeometryNode?
    ensures r.SceneNode? <==> n.SceneNode?
    ensures r.QuadNode? <==> n.QuadNode?
    ensures r.BSPNode? <==> n.BSPNode?
    ensures n.GeometryNode? ==> r == n
    ensures n.BSPNode? ==>
      r.divider == n.divider && r.subNodes == [n.subNodes[0]] && r.span == n.subNodes[0].faces &&
      (r.front.Some? <==> n.front.Some?) && (r.back.Some? <==> n.back.Some?)
    ensures n.QuadNode? ==>
      r.bb == n.bb && |r.subNodes| == |n.subNodes| &&
      (r.tl.Some? <==> n.tl.Some?) && (r.tr.Some? <==> n.tr.Some?) &&
      (r.bl.Some? <==> n.bl.Some?) && (r.br.Some? <==> n.br.Some?)
  {
    match n
    case GeometryNode(fs) => GeometryNode(fs)
    case SceneNode(subs) => SceneNode(CloneList(subs))
    case QuadNode(bb, tl, tr, bl, br, subs) =>
      QuadNode(bb, CloneOpt(tl), CloneOpt(tr), CloneOpt(bl), CloneOpt(br), CloneList(subs))
    case BSPNode(_, front, back, _, subs) =>
      var sub := Clone(subs[0]);
      ShallowCopy(n).(front := CloneOpt(front), back := CloneOpt(back), subNodes := [sub], span := sub.faces)
  }

  function CloneOpt(o: Option<Node>): (r: Option<Node>)
    requires CloneableOpt(o)
    ensures r.Some? <==> o.Some?
  {
    if o.Some? then Some(Clone(o.value)) else None
  }

  function CloneList(cs: seq<Node>): (r: seq<Node>)
    requires forall i :: 0 <= i < |cs| ==> Cloneable(cs[i])
    ensures |r| == |cs|
  {
    if cs == [] then [] else [Clone(cs[0])] + CloneList(cs[1..])
  }
}
