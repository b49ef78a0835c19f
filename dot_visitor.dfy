// The DOT exporter's handling of the acceleration nodes: a quad node is
// drawn with edges to its children in visiting order, and a BSP tree is
// summarised by a statistics visitor that walks it and records its face
// count, its number of nodes and its minimum and maximum depth.
module DotVisitor {
  import opened Wrappers
  import opened Geometry
  import opened Scene
  import BspTree
  import FindDividerStrategy

  /** A BSP node whose front and back children are BSP nodes too (the
      children are typed as BSP nodes). */
  predicate BspShaped(n: Node)
  {
    n.BSPNode? &&
    (n.front.Some? ==> BspShaped(n.front.value)) && (n.back.Some? ==> BspShaped(n.back.value))
  }

  /** `weight`: the number of BSP nodes in the tree. */
  function Weight(n: Node): nat
    requires BspShaped(n)
  {
    1 + (if n.front.Some? then Weight(n.front.value) else 0) +
        (if n.back.Some? then Weight(n.back.value) else 0)
  }

  /** `max`: a missing child counts 1, a node one more than its larger side. */
  function MaxStat(n: Node): int
    requires BspShaped(n)
  {
    var fmax := if n.front.Some? then MaxStat(n.front.value) else 1;
    var bmax := if n.back.Some? then MaxStat(n.back.value) else 1;
    (if fmax > bmax then fmax else bmax) + 1
  }

  /** `min` as computed: a missing child counts 1; if one side is 0 the
      larger side is taken, otherwise the smaller; plus one. */
  function MinStat(n: Node): int
    requires BspShaped(n)
  {
    var fmin := if n.front.Some? then MinStat(n.front.value) else 1;
    var bmin := if n.back.Some? then MinStat(n.back.value) else 1;
    if fmin == 0 || bmin == 0 then (if fmin > bmin then fmin else bmin) + 1
    else (if fmin < bmin then fmin else bmin) + 1
  }

  /** `count`: one plus the span size for every node of the tree. */
  function FaceCount(n: Node): nat
    requires BspShaped(n)
  {
    1 + |n.span| + (if n.front.Some? then FaceCount(n.front.value) else 0) +
                   (if n.back.Some? then FaceCount(n.back.value) else 0)
  }

  /** The statistics visitor. Its fields are overwritten by every visit
      of a node except `count`, which only grows. */
  class BSPStatsVisitor {
    var min: int
    var max: int
    var count: int
    var weight: int

    constructor()
      ensures min == 0 && max == 0 && count == 0 && weight == 0
    {
      min, max, count, weight := 0, 0, 0, 0;
    }

    /** `VisitBSPNode`: visits the front, then the back, reading the
        fields each visit leaves behind, then sets the node's own. The
        code adds one plus the span's size only when the span pointer is
        not null; here the span is a value that every BSP node has, so
        that guard is always true and has no counterpart. */
    method VisitBSPNode(n: Node)
      requires BspShaped(n)
      modifies this
      ensures min == MinStat(n) && max == MaxStat(n) && weight == Weight(n)
      ensures count == old(count) + FaceCount(n)
      decreases n
    {
      var fmin, bmin := 0, 0;
      var fmax, bmax := 1, 1;
      var fwgh, bwgh := 0, 0;
      if n.front.Some? {
        VisitBSPNode(n.front.value);
        fmin, fmax, fwgh := min, max, weight;
      } else {
        fmin := 1;
      }
      if n.back.Some? {
        VisitBSPNode(n.back.value);
        bmin, bmax, bwgh := min, max, weight;
      } else {
        bmin := 1;
      }
      if fmin == 0 || bmin == 0 {
        min := (if fmin > bmin then fmin else bmin) + 1;
      } else {
        min := (if fmin < bmin then fmin else bmin) + 1;
      }
      max := (if fmax > bmax then fmax else bmax) + 1;
      count := count + 1 + |n.span|;
      weight := fwgh + bwgh + 1;
    }
  }

  /** The statistics the exporter writes into a BSP node's label, from a
      fresh statistics visitor. */
  method BspStats(n: Node) returns (count: int, weight: int, min: int, max: int)
    requires BspShaped(n)
    ensures count == FaceCount(n) && weight == Weight(n)
    ensures min == MinDepth(n) + 1 && min >= 2
    ensures max == BspTree.Height(n) + 1
  {
    var stats := new BSPStatsVisitor();
    stats.VisitBSPNode(n);
    MinStatIsMinDepth(n);
    MaxStatIsHeight(n);
    count, weight, min, max := stats.count, stats.weight, stats.min, stats.max;
  }

  /** The number of nodes on the shortest path from `n` down to a node
      with a missing child. */
  function MinDepth(n: Node): nat
    requires BspShaped(n)
  {
    if n.front.None? || n.back.None? then 1
    else 1 + FindDividerStrategy.Min(MinDepth(n.front.value), MinDepth(n.back.value))
  }

  /** `min` is one more than the shortest path to a missing child, so it
      is at least 2; the branch for a side of 0 is never taken, and a
      node with a missing child gets 2. */
  lemma {:induction false} MinStatIsMinDepth(n: Node)
    requires BspShaped(n)
    ensures MinStat(n) == MinDepth(n) + 1 && MinStat(n) >= 2
    ensures n.front.None? || n.back.None? ==> MinStat(n) == 2
  {
    if n.front.Some? {
      MinStatIsMinDepth(n.front.value);
    }
    if n.back.Some? {
      MinStatIsMinDepth(n.back.value);
    }
  }

  /** `max` is one more than the height of the tree: a leaf gets 2. */
  lemma {:induction false} MaxStatIsHeight(n: Node)
    requires BspShaped(n)
    ensures MaxStat(n) == BspTree.Height(n) + 1
  {
    if n.front.Some? {
      MaxStatIsHeight(n.front.value);
    }
    if n.back.Some? {
      MaxStatIsHeight(n.back.value);
    }
  }

  /** The number of BSP nodes in a node list. */
  function CountBsp(ns: seq<Node>): nat
  {
    if ns == [] then 0 else (if ns[0].BSPNode? then 1 else 0) + CountBsp(ns[1..])
  }

  lemma {:induction false} CountBspConcat(a: seq<Node>, b: seq<Node>)
    ensures CountBsp(a + b) == CountBsp(a) + CountBsp(b)
  {
    if a == [] {
      assert a + b == b;
    } else {
      assert (a + b)[1..] == a[1..] + b;
      CountBspConcat(a[1..], b);
    }
  }

  lemma WellFormedIsBspShaped(n: Node)
    requires BspTree.WellFormed(n)
    ensures BspShaped(n)
  {
  }

  /** On a constructed tree `weight` is the number of BSP nodes a full
      visit reaches, and `count` is that number plus the number of faces
      in the tree's geometry. */
  lemma {:induction false} WeightCountsNodes(n: Node)
    requires BspTree.WellFormed(n)
    ensures BspShaped(n)
    ensures Weight(n) == CountBsp(Walk(n))
    ensures FaceCount(n) == Weight(n) + |AllFaces(n)|
  {
    WellFormedIsBspShaped(n);
    var g := [GeometryNode(n.span)];
    assert WalkList(g) == [GeometryNode(n.span)] + WalkList([]);
    var w1 := WalkOpt(n.front) + WalkList(g);
    assert Walk(n) == [n] + (w1 + WalkOpt(n.back));
    CountBspConcat([n], w1 + WalkOpt(n.back));
    CountBspConcat(w1, WalkOpt(n.back));
    CountBspConcat(WalkOpt(n.front), WalkList(g));
    GeometryFacesConcat([n], w1 + WalkOpt(n.back));
    GeometryFacesConcat(w1, WalkOpt(n.back));
    GeometryFacesConcat(WalkOpt(n.front), WalkList(g));
    assert CountBsp([n]) == 1 + CountBsp([]);
    assert GeometryFaces([n]) == [] + GeometryFaces([]);
    assert GeometryFaces(WalkList(g)) == n.span + GeometryFaces([]);
    assert CountBsp(WalkList(g)) == 0 + CountBsp([]);
    if n.front.Some? {
      WeightCountsNodes(n.front.value);
    }
    if n.back.Some? {
      WeightCountsNodes(n.back.value);
    }
  }

  /** The targets of a quad node's edges, in the order they are written:
      the present quadrants top-left, top-right, bottom-left,
      bottom-right, then the sub-nodes. This is the node's visiting order. */
  method QuadEdges(n: Node) returns (targets: seq<Node>)
    requires n.QuadNode?
    ensures targets == SubNodeOrder(n)
  {
    targets := [];
    if n.tl.Some? { targets := targets + [n.tl.value]; }
    assert targets == Opt(n.tl);
    if n.tr.Some? { targets := targets + [n.tr.value]; }
    assert targets == Opt(n.tl) + Opt(n.tr);
    if n.bl.Some? { targets := targets + [n.bl.value]; }
    assert targets == Opt(n.tl) + Opt(n.tr) + Opt(n.bl);
    if n.br.Some? { targets := targets + [n.br.value]; }
    ghost var quads := targets;
    assert quads == Opt(n.tl) + Opt(n.tr) + Opt(n.bl) + Opt(n.br);
    var i := 0;
    while i < |n.subNodes|
      invariant 0 <= i <= |n.subNodes|
      invariant targets == quads + n.subNodes[..i]
    {
      targets := targets + [n.subNodes[i]];
      i := i + 1;
    }
    assert n.subNodes[..i] == n.subNodes;
  }
}
