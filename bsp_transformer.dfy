// The BSP transformer: a visit of a scene that replaces, in its parent's
// sub-node list, every geometry node that has faces by the BSP tree built
// from those faces. Empty geometry nodes stay where they are; every other
// node is visited with the default visit (its children in visiting
// order), so quad children, BSP children and sub-node lists of every
// kind are searched.
module BspTransformer {
  import opened Wrappers
  import opened Geometry
  import opened Scene
  import opened PartitionStrategy
  import opened BspTree

  /** What the visit makes of a node found in a parent's sub-node list. */
  function Replace(lib: Library, policy: Policy, c: Node): (r: Node)
    requires ValidLibrary(lib) && SetsDistinct(c)
    decreases c, 1
  {
    if c.GeometryNode? then
      if c.faces != [] then Build(lib, policy, c.faces) else c
    else Visit(lib, policy, c)
  }

  /** A node after the visit. Nothing but sub-node lists is rewritten:
      the kind of the node, its bounding square, its divider and span and
      which of its children are present stay as they were. */
  function Visit(lib: Library, policy: Policy, n: Node): (r: Node)
    requires ValidLibrary(lib) && SetsDistinct(n)
    ensures r.GeometryNode? <==> n.GeometryNode?
    ensures r.SceneNode? <==> n.SceneNode?
    ensures r.QuadNode? <==> n.QuadNode?
    ensures r.BSPNode? <==> n.BSPNode?
    ensures n.GeometryNode? ==> r == n
    ensures !n.GeometryNode? ==> |r.subNodes| == |n.subNodes|
    ensures n.QuadNode? ==>
      r.bb == n.bb &&
      (r.tl.Some? <==> n.tl.Some?) && (r.tr.Some? <==> n.tr.Some?) &&
      (r.bl.Some? <==> n.bl.Some?) && (r.br.Some? <==> n.br.Some?)
    ensures n.BSPNode? ==>
      r.divider == n.divider && r.span == n.span &&
      (r.front.Some? <==> n.front.Some?) && (r.back.Some? <==> n.back.Some?)
    decreases n, 0
  {
    match n
    case GeometryNode(_) => n
    case SceneNode(subs) => SceneNode(ReplaceAll(lib, policy, subs))
    case QuadNode(bb, tl, tr, bl, br, subs) =>
      QuadNode(bb, VisitOpt(lib, policy, tl), VisitOpt(lib, policy, tr),
               VisitOpt(lib, policy, bl), VisitOpt(lib, policy, br), ReplaceAll(lib, policy, subs))
    case BSPNode(d, front, back, span, subs) =>
      BSPNode(d, VisitOpt(lib, policy, front), VisitOpt(lib, policy, back), span,
              ReplaceAll(lib, policy, subs))
  }

  function VisitOpt(lib: Library, policy: Policy, o: Option<Node>): (r: Option<Node>)
    requires ValidLibrary(lib) && SetsDistinctOpt(o)
    ensures r.Some? <==> o.Some?
    decreases o, 0
  {
    if o.Some? then Some(Visit(lib, policy, o.value)) else None
  }

  /** A sub-node list after the visit: each entry replaced in place. */
  function ReplaceAll(lib: Library, policy: Policy, subs: seq<Node>): (r: seq<Node>)
    requires ValidLibrary(lib) && forall i :: 0 <= i < |subs| ==> SetsDistinct(subs[i])
    ensures |r| == |subs|
    ensures forall i :: 0 <= i < |subs| ==> r[i] == Replace(lib, policy, subs[i])
    decreases subs, 0
  {
    if subs == [] then [] else [Replace(lib, policy, subs[0])] + ReplaceAll(lib, policy, subs[1..])
  }

  /** `Transform`: the visit started at `root`. A geometry root with faces
      has no parent to be replaced in, which the source does not handle. */
  method Transform(lib: Library, policy: Policy, root: Node) returns (r: Node)
    requires ValidLibrary(lib) && SetsDistinct(root)
    requires !(root.GeometryNode? && root.faces != [])
    ensures r == Visit(lib, policy, root)
  {
    r := VisitNode(lib, policy, root);
  }

  /** The default visit of a node: its children in visiting order. */
  method VisitNode(lib: Library, policy: Policy, n: Node) returns (r: Node)
    requires ValidLibrary(lib) && SetsDistinct(n)
    ensures r == Visit(lib, policy, n)
    decreases n, 0
  {
    match n
    case GeometryNode(_) =>
      r := n;
    case SceneNode(subs) =>
      var subs' := ReplaceSubNodes(lib, policy, subs);
      r := SceneNode(subs');
    case QuadNode(bb, tl, tr, bl, br, subs) =>
      var tl' := VisitChild(lib, policy, tl);
      var tr' := VisitChild(lib, policy, tr);
      var bl' := VisitChild(lib, policy, bl);
      var br' := VisitChild(lib, policy, br);
      var subs' := ReplaceSubNodes(lib, policy, subs);
      r := QuadNode(bb, tl', tr', bl', br', subs');
    case BSPNode(d, front, back, span, subs) =>
      var front' := VisitChild(lib, policy, front);
      var subs' := ReplaceSubNodes(lib, policy, subs);
      var back' := VisitChild(lib, policy, back);
      r := BSPNode(d, front', back', span, subs');
  }

  method VisitChild(lib: Library, policy: Policy, o: Option<Node>) returns (r: Option<Node>)
    requires ValidLibrary(lib) && SetsDistinctOpt(o)
    ensures r == VisitOpt(lib, policy, o)
    decreases o, 0
  {
    r := None;
    if o.Some? {
      var c := VisitNode(lib, policy, o.value);
      r := Some(c);
    }
  }

  /** What one entry of a sub-node list becomes: a geometry node with
      faces is replaced by the BSP tree of its faces (`ReplaceNode`), an
      empty one is left alone, any other node is visited. */
  method ReplaceEntry(lib: Library, policy: Policy, c: Node) returns (e: Node)
    requires ValidLibrary(lib) && SetsDistinct(c)
    ensures e == Replace(lib, policy, c)
    decreases c, 1
  {
    e := c;
    if c.GeometryNode? {
      if |c.faces| != 0 {
        var built := NewBSPNode(lib, policy, c.faces);
        e := built.value;
      }
    } else {
      e := VisitNode(lib, policy, c);
    }
  }

  /** The walk over a parent's sub-node list, each entry rewritten at its
      own position. */
  method ReplaceSubNodes(lib: Library, policy: Policy, subs: seq<Node>) returns (out: seq<Node>)
    requires ValidLibrary(lib) && forall i :: 0 <= i < |subs| ==> SetsDistinct(subs[i])
    ensures out == ReplaceAll(lib, policy, subs)
    decreases subs, 0
  {
    out := subs;
    var i := 0;
    while i < |out|
      invariant 0 <= i <= |out| == |subs|
      invariant forall j :: 0 <= j < i ==> out[j] == Replace(lib, policy, subs[j])
      invariant forall j :: i <= j < |subs| ==> out[j] == subs[j]
    {
      var e := ReplaceEntry(lib, policy, subs[i]);
      out := out[i := e];
      i := i + 1;
    }
  }

  /** With the Divide strategy the visit keeps every face of the scene:
      the geometry reachable afterwards holds exactly the faces reachable
      before. */
  lemma {:induction false} DivideVisitKeepsFaces(lib: Library, n: Node)
    requires ValidLibrary(lib) && SetsDistinct(n)
    ensures Faces(Visit(lib, DividePolicy, n)) == Faces(n)
    decreases n, 0
  {
    match n
    case GeometryNode(_) =>
    case SceneNode(subs) =>
      DivideReplaceAllKeepsFaces(lib, subs);
    case QuadNode(bb, tl, tr, bl, br, subs) =>
      DivideVisitOptKeepsFaces(lib, tl);
      DivideVisitOptKeepsFaces(lib, tr);
      DivideVisitOptKeepsFaces(lib, bl);
      DivideVisitOptKeepsFaces(lib, br);
      DivideReplaceAllKeepsFaces(lib, subs);
    case BSPNode(d, front, back, span, subs) =>
      DivideVisitOptKeepsFaces(lib, front);
      DivideVisitOptKeepsFaces(lib, back);
      DivideReplaceAllKeepsFaces(lib, subs);
  }

  lemma {:induction false} DivideVisitOptKeepsFaces(lib: Library, o: Option<Node>)
    requires ValidLibrary(lib) && SetsDistinctOpt(o)
    ensures FacesOpt(VisitOpt(lib, DividePolicy, o)) == FacesOpt(o)
    decreases o, 0
  {
    if o.Some? {
      DivideVisitKeepsFaces(lib, o.value);
    }
  }

  lemma {:induction false} DivideReplaceAllKeepsFaces(lib: Library, subs: seq<Node>)
    requires ValidLibrary(lib) && forall i :: 0 <= i < |subs| ==> SetsDistinct(subs[i])
    ensures FacesList(ReplaceAll(lib, DividePolicy, subs)) == FacesList(subs)
    decreases subs, 0
  {
    if subs != [] {
      var c := subs[0];
      if c.GeometryNode? {
        if c.faces != [] {
          DivideTreeKeepsEveryFace(lib, c.faces);
        }
      } else {
        DivideVisitKeepsFaces(lib, c);
      }
      DivideReplaceAllKeepsFaces(lib, subs[1..]);
      assert ReplaceAll(lib, DividePolicy, subs)[1..] == ReplaceAll(lib, DividePolicy, subs[1..]);
    }
  }

  /** No geometry node with faces is left in the sub-node list of a
      visited node: each such node now is a constructed BSP tree (whose
      span sub-nodes are geometry by design), and every other entry is an
      empty geometry node or a node that is itself settled. */
  predicate Settled(n: Node)
    decreases n, 0
  {
    match n
    case GeometryNode(_) => true
    case SceneNode(subs) => forall i :: 0 <= i < |subs| ==> SettledEntry(subs[i])
    case QuadNode(_, tl, tr, bl, br, subs) =>
      SettledOpt(tl) && SettledOpt(tr) && SettledOpt(bl) && SettledOpt(br) &&
      forall i :: 0 <= i < |subs| ==> SettledEntry(subs[i])
    case BSPNode(_, front, back, _, subs) =>
      SettledOpt(front) && SettledOpt(back) &&
      forall i :: 0 <= i < |subs| ==> SettledEntry(subs[i])
  }

  predicate SettledOpt(o: Option<Node>)
  {
    o.Some? ==> Settled(o.value)
  }

  predicate SettledEntry(c: Node)
    decreases c, 1
  {
    if c.GeometryNode? then c.faces == [] else WellFormed(c) || Settled(c)
  }

  /** After the visit no reachable sub-node list holds a geometry node
      with faces outside the BSP trees the visit built. */
  lemma {:induction false} VisitSettles(lib: Library, policy: Policy, n: Node)
    requires ValidLibrary(lib) && SetsDistinct(n)
    ensures Settled(Visit(lib, policy, n))
    decreases n, 0
  {
    match n
    case GeometryNode(_) =>
    case SceneNode(subs) =>
      ReplaceAllSettles(lib, policy, subs);
    case QuadNode(bb, tl, tr, bl, br, subs) =>
      VisitOptSettles(lib, policy, tl);
      VisitOptSettles(lib, policy, tr);
      VisitOptSettles(lib, policy, bl);
      VisitOptSettles(lib, policy, br);
      ReplaceAllSettles(lib, policy, subs);
    case BSPNode(d, front, back, span, subs) =>
      VisitOptSettles(lib, policy, front);
      VisitOptSettles(lib, policy, back);
      ReplaceAllSettles(lib, policy, subs);
  }

  lemma {:induction false} VisitOptSettles(lib: Library, policy: Policy, o: Option<Node>)
    requires ValidLibrary(lib) && SetsDistinctOpt(o)
    ensures SettledOpt(VisitOpt(lib, policy, o))
    decreases o, 0
  {
    if o.Some? {
      VisitSettles(lib, policy, o.value);
    }
  }

  lemma {:induction false} ReplaceAllSettles(lib: Library, policy: Policy, subs: seq<Node>)
    requires ValidLibrary(lib) && forall i :: 0 <= i < |subs| ==> SetsDistinct(subs[i])
    ensures forall i :: 0 <= i < |subs| ==> SettledEntry(ReplaceAll(lib, policy, subs)[i])
    decreases subs, 0
  {
    forall i | 0 <= i < |subs|
      ensures SettledEntry(ReplaceAll(lib, policy, subs)[i])
    {
      var c := subs[i];
      if c.GeometryNode? {
        if c.faces != [] {
          BuildWellFormed(lib, policy, c.faces);
        }
      } else {
        VisitSettles(lib, policy, c);
      }
    }
  }
}
