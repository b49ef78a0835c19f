// The quad transformer: a visit of a scene that replaces, in its parent's
// sub-node list, every geometry node that has faces by the quad tree
// built from them with the transformer's limits, and deletes every empty
// geometry node. Every other node is visited with the default visit.
module QuadTransformer {
  import opened Wrappers
  import opened Geometry
  import opened Scene
  import QuadTree

  /** What the visit puts in place of a node found in a sub-node list:
      nothing for an empty geometry node, the quad tree of a geometry
      node with faces, the visited node otherwise. */
  function Entry(lib: Library, count: int, hsize: real, c: Node): (r: seq<Node>)
    requires QuadTree.QuartersShrink(lib, count, hsize)
    ensures |r| <= 1 && (r == [] <==> c.GeometryNode? && c.faces == [])
    ensures forall i :: 0 <= i < |r| ==> !r[i].GeometryNode?
    decreases c, 1
  {
    if c.GeometryNode? then
      if c.faces != [] then [QuadTree.Build(lib, c.faces, count, hsize)] else []
    else [Visit(lib, count, hsize, c)]
  }

  /** A node after the visit: only sub-node lists are rewritten. */
  function Visit(lib: Library, count: int, hsize: real, n: Node): (r: Node)
    requires QuadTree.QuartersShrink(lib, count, hsize)
    ensures r.GeometryNode? <==> n.GeometryNode?
    ensures r.SceneNode? <==> n.SceneNode?
    ensures r.QuadNode? <==> n.QuadNode?
    ensures r.BSPNode? <==> n.BSPNode?
    ensures n.GeometryNode? ==> r == n
    ensures n.QuadNode? ==>
      r.bb == n.bb &&
      (r.tl.Some? <==> n.tl.Some?) && (r.tr.Some? <==> n.tr.Some?) &&
      (r.bl.Some? <==> n.bl.Some?) && (r.br.Some? <==> n.br.Some?)
    ensures n.BSPNode? ==>
      r.divider == n.divider && r.span == n.span &&
      (r.front.Some? <==> n.front.Some?) && (r.back.Some? <==> n.back.Some?)
    decreases n, 0
  {
    match n
    case GeometryNode(_) => n
    case SceneNode(subs) => SceneNode(ReplaceAll(lib, count, hsize, subs))
    case QuadNode(bb, tl, tr, bl, br, subs) =>
      QuadNode(bb, VisitOpt(lib, count, hsize, tl), VisitOpt(lib, count, hsize, tr),
               VisitOpt(lib, count, hsize, bl), VisitOpt(lib, count, hsize, br),
               ReplaceAll(lib, count, hsize, subs))
    case BSPNode(d, front, back, span, subs) =>
      BSPNode(d, VisitOpt(lib, count, hsize, front), VisitOpt(lib, count, hsize, back), span,
              ReplaceAll(lib, count, hsize, subs))
  }

  function VisitOpt(lib: Library, count: int, hsize: real, o: Option<Node>): (r: Option<Node>)
    requires QuadTree.QuartersShrink(lib, count, hsize)
    ensures r.Some? <==> o.Some?
    decreases o, 0
  {
    if o.Some? then Some(Visit(lib, count, hsize, o.value)) else None
  }

  /** A sub-node list after the visit. No geometry node is left in it. */
  function ReplaceAll(lib: Library, count: int, hsize: real, subs: seq<Node>): (r: seq<Node>)
    requires QuadTree.QuartersShrink(lib, count, hsize)
    ensures |r| <= |subs|
    ensures forall i :: 0 <= i < |r| ==> !r[i].GeometryNode?
    decreases subs, 0
  {
    if subs == [] then []
    else Entry(lib, count, hsize, subs[0]) + ReplaceAll(lib, count, hsize, subs[1..])
  }

  lemma {:induction false} ReplaceAllAppend(lib: Library, count: int, hsize: real, a: seq<Node>, c: Node)
    requires QuadTree.QuartersShrink(lib, count, hsize)
    ensures ReplaceAll(lib, count, hsize, a + [c]) ==
            ReplaceAll(lib, count, hsize, a) + Entry(lib, count, hsize, c)
  {
    if a == [] {
      assert [c][1..] == [];
      assert a + [c] == [c];
    } else {
      assert (a + [c])[1..] == a[1..] + [c];
      ReplaceAllAppend(lib, count, hsize, a[1..], c);
    }
  }

  /** A list with its empty geometry nodes removed, the rest in order. */
  function Kept(subs: seq<Node>): seq<Node>
  {
    if subs == [] then []
    else if subs[0].GeometryNode? && subs[0].faces == [] then Kept(subs[1..])
    else [subs[0]] + Kept(subs[1..])
  }

  /** Exactly the empty geometry nodes are deleted from a list; every
      other entry keeps its place in order and becomes its replacement. */
  lemma {:induction false} ReplaceAllDeletesEmpty(lib: Library, count: int, hsize: real, subs: seq<Node>)
    requires QuadTree.QuartersShrink(lib, count, hsize)
    ensures |ReplaceAll(lib, count, hsize, subs)| == |Kept(subs)|
    ensures forall i :: 0 <= i < |Kept(subs)| ==>
      [ReplaceAll(lib, count, hsize, subs)[i]] == Entry(lib, count, hsize, Kept(subs)[i])
  {
    if subs != [] {
      ReplaceAllDeletesEmpty(lib, count, hsize, subs[1..]);
    }
  }

  /** After the visit no reachable sub-node list holds a geometry node,
      except the leaf geometry of the quad trees the visit built. */
  predicate Settled(count: int, hsize: real, n: Node)
    decreases n, 0
  {
    match n
    case GeometryNode(_) => true
    case SceneNode(subs) => forall i :: 0 <= i < |subs| ==> SettledEntry(count, hsize, subs[i])
    case QuadNode(_, tl, tr, bl, br, subs) =>
      SettledOpt(count, hsize, tl) && SettledOpt(count, hsize, tr) &&
      SettledOpt(count, hsize, bl) && SettledOpt(count, hsize, br) &&
      forall i :: 0 <= i < |subs| ==> SettledEntry(count, hsize, subs[i])
    case BSPNode(_, front, back, _, subs) =>
      SettledOpt(count, hsize, front) && SettledOpt(count, hsize, back) &&
      forall i :: 0 <= i < |subs| ==> SettledEntry(count, hsize, subs[i])
  }

  predicate SettledOpt(count: int, hsize: real, o: Option<Node>)
    decreases o, 0
  {
    o.Some? ==> Settled(count, hsize, o.value)
  }

  predicate SettledEntry(count: int, hsize: real, c: Node)
    decreases c, 1
  {
    !c.GeometryNode? && (QuadTree.WellFormed(c, count, hsize) || Settled(count, hsize, c))
  }

  lemma {:induction false} VisitSettles(lib: Library, count: int, hsize: real, n: Node)
    requires QuadTree.QuartersShrink(lib, count, hsize)
    ensures Settled(count, hsize, Visit(lib, count, hsize, n))
    decreases n, 0
  {
    match n
    case GeometryNode(_) =>
    case SceneNode(subs) =>
      ReplaceAllSettles(lib, count, hsize, subs);
    case QuadNode(bb, tl, tr, bl, br, subs) =>
      VisitOptSettles(lib, count, hsize, tl);
      VisitOptSettles(lib, count, hsize, tr);
      VisitOptSettles(lib, count, hsize, bl);
      VisitOptSettles(lib, count, hsize, br);
      ReplaceAllSettles(lib, count, hsize, subs);
    case BSPNode(d, front, back, span, subs) =>
      VisitOptSettles(lib, count, hsize, front);
      VisitOptSettles(lib, count, hsize, back);
      ReplaceAllSettles(lib, count, hsize, subs);
  }

  lemma {:induction false} VisitOptSettles(lib: Library, count: int, hsize: real, o: Option<Node>)
    requires QuadTree.QuartersShrink(lib, count, hsize)
    ensures SettledOpt(count, hsize, VisitOpt(lib, count, hsize, o))
    decreases o, 0
  {
    if o.Some? {
      VisitSettles(lib, count, hsize, o.value);
    }
  }

  lemma {:induction false} ReplaceAllSettles(lib: Library, count: int, hsize: real, subs: seq<Node>)
    requires QuadTree.QuartersShrink(lib, count, hsize)
    ensures forall i :: 0 <= i < |ReplaceAll(lib, count, hsize, subs)| ==>
      SettledEntry(count, hsize, ReplaceAll(lib, count, hsize, subs)[i])
    decreases subs, 0
  {
    if subs != [] {
      var c := subs[0];
      if c.GeometryNode? {
        if c.faces != [] {
          QuadTree.BuildWellFormed(lib, c.faces, count, hsize);
        }
      } else {
        VisitSettles(lib, count, hsize, c);
      }
      ReplaceAllSettles(lib, count, hsize, subs[1..]);
    }
  }

  /** The transformer with its two limits: the maximum face count and the
      maximum half size of a leaf's bounding square. */
  class Transformer {
    var count: int
    var hsize: real

    /** The defaults are a count of 500 and a half size of 100. */
    constructor()
      ensures count == 500 && hsize == 100.0
    {
      count, hsize := 500, 100.0;
    }

    /** The count is stored as given. */
    method SetMaxFaceCount(count: int)
      modifies this
      ensures this.count == count && hsize == old(hsize)
    {
      this.count := count;
    }

    /** `size` is the side of a leaf's bounding square; half of it is
        stored as the maximum half size. */
    method SetMaxQuadSize(size: real)
      modifies this
      ensures hsize == size / 2.0 && count == old(count)
    {
      hsize := size / 2.0;
    }

    /** `Transform`: the visit started at `root`. A geometry root has no
        parent to be replaced in or deleted from. */
    method Transform(lib: Library, root: Node) returns (r: Node)
      requires QuadTree.QuartersShrink(lib, count, hsize) && !root.GeometryNode?
      ensures r == Visit(lib, count, hsize, root)
      ensures Settled(count, hsize, r)
    {
      r := VisitNode(lib, count, hsize, root);
      VisitSettles(lib, count, hsize, root);
    }
  }

  method VisitNode(lib: Library, count: int, hsize: real, n: Node) returns (r: Node)
    requires QuadTree.QuartersShrink(lib, count, hsize)
    ensures r == Visit(lib, count, hsize, n)
    decreases n, 0
  {
    match n
    case GeometryNode(_) =>
      r := n;
    case SceneNode(subs) =>
      var subs' := ReplaceSubNodes(lib, count, hsize, subs);
      r := SceneNode(subs');
    case QuadNode(bb, tl, tr, bl, br, subs) =>
      var tl' := VisitChild(lib, count, hsize, tl);
      var tr' := VisitChild(lib, count, hsize, tr);
      var bl' := VisitChild(lib, count, hsize, bl);
      var br' := VisitChild(lib, count, hsize, br);
      var subs' := ReplaceSubNodes(lib, count, hsize, subs);
      r := QuadNode(bb, tl', tr', bl', br', subs');
    case BSPNode(d, front, back, span, subs) =>
      var front' := VisitChild(lib, count, hsize, front);
      var subs' := ReplaceSubNodes(lib, count, hsize, subs);
      var back' := VisitChild(lib, count, hsize, back);
      r := BSPNode(d, front', back', span, subs');
  }

  method VisitChild(lib: Library, count: int, hsize: real, o: Option<Node>) returns (r: Option<Node>)
    requires QuadTree.QuartersShrink(lib, count, hsize)
    ensures r == VisitOpt(lib, count, hsize, o)
    decreases o, 0
  {
    r := None;
    if o.Some? {
      var c := VisitNode(lib, count, hsize, o.value);
      r := Some(c);
    }
  }

  /** What replaces one entry of a sub-node list: the quad tree of a
      geometry node with faces, nothing for an empty geometry node (it is
      deleted), the visited node for any other node. */
  method ReplaceEntry(lib: Library, count: int, hsize: real, c: Node) returns (e: seq<Node>)
    requires QuadTree.QuartersShrink(lib, count, hsize)
    ensures e == Entry(lib, count, hsize, c)
    decreases c, 1
  {
    if c.GeometryNode? {
      if |c.faces| != 0 {
        var quad := QuadTree.NewQuadNode(lib, c.faces, count, hsize);
        e := [quad];
      } else {
        e := [];
      }
    } else {
      var c' := VisitNode(lib, count, hsize, c);
      e := [c'];
    }
  }

  /** The walk over a parent's sub-node list: each entry is replaced at
      its own position (`ReplaceNode`) or deleted (`DeleteNode`). `j` is
      the position in the list being rewritten that the `i`-th original
      entry now occupies. */
  method ReplaceSubNodes(lib: Library, count: int, hsize: real, subs: seq<Node>) returns (out: seq<Node>)
    requires QuadTree.QuartersShrink(lib, count, hsize)
    ensures out == ReplaceAll(lib, count, hsize, subs)
    decreases subs, 0
  {
    out := subs;
    var i, j := 0, 0;
    ghost var done: seq<Node> := [];
    while i < |subs|
      invariant 0 <= i <= |subs|
      invariant done == ReplaceAll(lib, count, hsize, subs[..i]) && j == |done|
      invariant j <= |out| && out[..j] == done && out[j..] == subs[i..]
    {
      var c := subs[i];
      var e := ReplaceEntry(lib, count, hsize, c);
      ReplaceAllStep(lib, count, hsize, subs, i);
      Behind(out, j, subs[i..]);
      if e == [] {
        DeleteAt(out, j);
        out := out[..j] + out[j + 1..];
      } else {
        ReplaceAt(out, j, e[0]);
        assert e == [e[0]];
        out := out[j := e[0]];
        j := j + 1;
      }
      done := done + e;
      i := i + 1;
    }
    assert subs[..i] == subs;
  }

  lemma ReplaceAllStep(lib: Library, count: int, hsize: real, subs: seq<Node>, i: nat)
    requires QuadTree.QuartersShrink(lib, count, hsize) && i < |subs|
    ensures ReplaceAll(lib, count, hsize, subs[..i + 1]) ==
            ReplaceAll(lib, count, hsize, subs[..i]) + Entry(lib, count, hsize, subs[i])
  {
    assert subs[..i + 1] == subs[..i] + [subs[i]];
    ReplaceAllAppend(lib, count, hsize, subs[..i], subs[i]);
  }

  lemma Behind(s: seq<Node>, j: nat, t: seq<Node>)
    requires j <= |s| && s[j..] == t && t != []
    ensures j < |s| && s[j] == t[0] && s[j + 1..] == t[1..]
  {
    assert s[j..][1..] == s[j + 1..];
  }

  /** `DeleteNode` at position `j`: what is before it stays, what is
      behind it moves up one place. */
  lemma DeleteAt(s: seq<Node>, j: nat)
    requires j < |s|
    ensures var r := s[..j] + s[j + 1..];
      j <= |r| && r[..j] == s[..j] && r[j..] == s[j + 1..]
  {
    var r := s[..j] + s[j + 1..];
    assert r[..j] == s[..j];
    assert r[j..] == s[j + 1..];
  }

  /** `ReplaceNode` at position `j`: only that position changes. */
  lemma ReplaceAt(s: seq<Node>, j: nat, x: Node)
    requires j < |s|
    ensures var r := s[j := x];
      j + 1 <= |r| && r[..j + 1] == s[..j] + [x] && r[j + 1..] == s[j + 1..]
  {
    var r := s[j := x];
    assert r[..j + 1] == s[..j] + [x];
    assert r[j + 1..] == s[j + 1..];
  }
}
