// The accelerated rendering view: a scene visit that skips a quad node's
// subtree when the viewing volume reports its bounding square invisible,
// and always descends into BSP nodes. The viewing volume is the one
// external input; it is the parameter `visible`.
module RenderingView {
  import opened Wrappers
  import opened Geometry
  import opened Scene
  import BspTree

  /** The nodes the view reaches from `n`, in the order it reaches them. */
  function Render(visible: Box -> bool, n: Node): (r: seq<Node>)
    ensures |r| >= 1 && r[0] == n
  {
    [n] + match n
      case GeometryNode(_) => []
      case SceneNode(subs) => RenderList(visible, subs)
      case QuadNode(bb, tl, tr, bl, br, subs) =>
        if visible(bb) then
          RenderOpt(visible, tl) + RenderOpt(visible, tr) + RenderOpt(visible, bl) +
          RenderOpt(visible, br) + RenderList(visible, subs)
        else []
      case BSPNode(_, front, back, _, subs) =>
        RenderOpt(visible, front) + RenderList(visible, subs) + RenderOpt(visible, back)
  }

  function RenderOpt(visible: Box -> bool, o: Option<Node>): seq<Node>
  {
    if o.Some? then Render(visible, o.value) else []
  }

  function RenderList(visible: Box -> bool, cs: seq<Node>): seq<Node>
  {
    if cs == [] then [] else Render(visible, cs[0]) + RenderList(visible, cs[1..])
  }

  /** A quad node whose square is not visible is reached, and nothing
      beneath it is. */
  lemma InvisibleQuadIsPruned(visible: Box -> bool, n: Node)
    requires n.QuadNode? && !visible(n.bb)
    ensures Render(visible, n) == [n]
  {
  }

  /** The entries of `b` whose flag in `keep` is set, in order. */
  function Select(b: seq<Node>, keep: seq<bool>): seq<Node>
    requires |keep| == |b|
  {
    if b == [] then [] else (if keep[0] then [b[0]] else []) + Select(b[1..], keep[1..])
  }

  /** `a` is `b` with some entries left out and the rest in order. */
  ghost predicate Subsequence(a: seq<Node>, b: seq<Node>)
  {
    exists keep: seq<bool> :: |keep| == |b| && a == Select(b, keep)
  }

  lemma {:induction false} SelectConcat(b1: seq<Node>, k1: seq<bool>, b2: seq<Node>, k2: seq<bool>)
    requires |k1| == |b1| && |k2| == |b2|
    ensures Select(b1 + b2, k1 + k2) == Select(b1, k1) + Select(b2, k2)
  {
    if b1 == [] {
      assert b1 + b2 == b2 && k1 + k2 == k2;
    } else {
      var head := if k1[0] then [b1[0]] else [];
      assert (b1 + b2)[1..] == b1[1..] + b2 && (k1 + k2)[1..] == k1[1..] + k2;
      assert Select(b1 + b2, k1 + k2) == head + Select(b1[1..] + b2, k1[1..] + k2);
      SelectConcat(b1[1..], k1[1..], b2, k2);
      assert Select(b1, k1) == head + Select(b1[1..], k1[1..]);
    }
  }

  lemma SubsequenceConcat(a1: seq<Node>, b1: seq<Node>, a2: seq<Node>, b2: seq<Node>)
    requires Subsequence(a1, b1) && Subsequence(a2, b2)
    ensures Subsequence(a1 + a2, b1 + b2)
  {
    var k1 :| |k1| == |b1| && a1 == Select(b1, k1);
    var k2 :| |k2| == |b2| && a2 == Select(b2, k2);
    SelectConcat(b1, k1, b2, k2);
  }

  lemma {:induction false} SubsequenceEmpty(b: seq<Node>)
    ensures Subsequence([], b)
  {
    if b != [] {
      SubsequenceEmpty(b[1..]);
      var k :| |k| == |b[1..]| && [] == Select(b[1..], k);
      assert Select(b, [false] + k) == [];
    } else {
      assert Select(b, []) == [];
    }
  }

  /** The view reaches nodes in the order a full visit does and skips
      some: its sequence is a subsequence of `Walk`. */
  lemma {:induction false} RenderIsSubsequence(visible: Box -> bool, n: Node)
    ensures Subsequence(Render(visible, n), Walk(n))
  {
    SubsequenceHead(n);
    match n
    case GeometryNode(_) =>
      assert Render(visible, n) == [n] + [] && Walk(n) == [n] + [];
      SubsequenceEmpty([]);
      SubsequenceConcat([n], [n], [], []);
    case SceneNode(subs) =>
      RenderListIsSubsequence(visible, subs);
      SubsequenceConcat([n], [n], RenderList(visible, subs), WalkList(subs));
    case QuadNode(bb, tl, tr, bl, br, subs) =>
      var w := WalkOpt(tl) + WalkOpt(tr) + WalkOpt(bl) + WalkOpt(br) + WalkList(subs);
      assert Walk(n) == [n] + w;
      if visible(bb) {
        RenderOptIsSubsequence(visible, tl);
        RenderOptIsSubsequence(visible, tr);
        RenderOptIsSubsequence(visible, bl);
        RenderOptIsSubsequence(visible, br);
        RenderListIsSubsequence(visible, subs);
        SubsequenceConcat(RenderOpt(visible, tl), WalkOpt(tl), RenderOpt(visible, tr), WalkOpt(tr));
        SubsequenceConcat(RenderOpt(visible, tl) + RenderOpt(visible, tr), WalkOpt(tl) + WalkOpt(tr),
                          RenderOpt(visible, bl), WalkOpt(bl));
        SubsequenceConcat(RenderOpt(visible, tl) + RenderOpt(visible, tr) + RenderOpt(visible, bl),
                          WalkOpt(tl) + WalkOpt(tr) + WalkOpt(bl), RenderOpt(visible, br), WalkOpt(br));
        SubsequenceConcat(RenderOpt(visible, tl) + RenderOpt(visible, tr) + RenderOpt(visible, bl) + RenderOpt(visible, br),
                          WalkOpt(tl) + WalkOpt(tr) + WalkOpt(bl) + WalkOpt(br),
                          RenderList(visible, subs), WalkList(subs));
        SubsequenceConcat([n], [n], Render(visible, n)[1..], w);
        assert Render(visible, n) == [n] + Render(visible, n)[1..];
      } else {
        SubsequenceEmpty(w);
        SubsequenceConcat([n], [n], [], w);
        assert Render(visible, n) == [n] + [];
      }
    case BSPNode(_, front, back, _, subs) =>
      var w := WalkOpt(front) + WalkList(subs) + WalkOpt(back);
      assert Walk(n) == [n] + w;
      RenderOptIsSubsequence(visible, front);
      RenderOptIsSubsequence(visible, back);
      RenderListIsSubsequence(visible, subs);
      SubsequenceConcat(RenderOpt(visible, front), WalkOpt(front), RenderList(visible, subs), WalkList(subs));
      SubsequenceConcat(RenderOpt(visible, front) + RenderList(visible, subs), WalkOpt(front) + WalkList(subs),
                        RenderOpt(visible, back), WalkOpt(back));
      SubsequenceConcat([n], [n], Render(visible, n)[1..], w);
      assert Render(visible, n) == [n] + Render(visible, n)[1..];
  }

  lemma SubsequenceHead(n: Node)
    ensures Subsequence([n], [n])
  {
    assert Select([n], [true]) == [n] + Select([], []);
  }

  lemma {:induction false} RenderOptIsSubsequence(visible: Box -> bool, o: Option<Node>)
    ensures Subsequence(RenderOpt(visible, o), WalkOpt(o))
  {
    if o.Some? {
      RenderIsSubsequence(visible, o.value);
    } else {
      SubsequenceEmpty([]);
    }
  }

  lemma {:induction false} RenderListIsSubsequence(visible: Box -> bool, cs: seq<Node>)
    ensures Subsequence(RenderList(visible, cs), WalkList(cs))
  {
    if cs == [] {
      SubsequenceEmpty([]);
    } else {
      RenderIsSubsequence(visible, cs[0]);
      RenderListIsSubsequence(visible, cs[1..]);
      SubsequenceConcat(Render(visible, cs[0]), Walk(cs[0]),
                        RenderList(visible, cs[1..]), WalkList(cs[1..]));
    }
  }

  /** Every quad node reachable from `n` has a visible square. */
  predicate QuadsVisible(visible: Box -> bool, n: Node)
  {
    match n
    case GeometryNode(_) => true
    case SceneNode(subs) => forall i :: 0 <= i < |subs| ==> QuadsVisible(visible, subs[i])
    case QuadNode(bb, tl, tr, bl, br, subs) =>
      visible(bb) &&
      QuadsVisibleOpt(visible, tl) && QuadsVisibleOpt(visible, tr) &&
      QuadsVisibleOpt(visible, bl) && QuadsVisibleOpt(visible, br) &&
      forall i :: 0 <= i < |subs| ==> QuadsVisible(visible, subs[i])
    case BSPNode(_, front, back, _, subs) =>
      QuadsVisibleOpt(visible, front) && QuadsVisibleOpt(visible, back) &&
      forall i :: 0 <= i < |subs| ==> QuadsVisible(visible, subs[i])
  }

  predicate QuadsVisibleOpt(visible: Box -> bool, o: Option<Node>)
  {
    o.Some? ==> QuadsVisible(visible, o.value)
  }

  /** Visibility is the only thing that prunes: when every reachable quad
      square is visible the view reaches every node, in visiting order. */
  lemma {:induction false} RenderAllVisible(visible: Box -> bool, n: Node)
    requires QuadsVisible(visible, n)
    ensures Render(visible, n) == Walk(n)
  {
    match n
    case GeometryNode(_) =>
    case SceneNode(subs) =>
      RenderListAllVisible(visible, subs);
    case QuadNode(bb, tl, tr, bl, br, subs) =>
      RenderOptAllVisible(visible, tl);
      RenderOptAllVisible(visible, tr);
      RenderOptAllVisible(visible, bl);
      RenderOptAllVisible(visible, br);
      RenderListAllVisible(visible, subs);
    case BSPNode(_, front, back, _, subs) =>
      RenderOptAllVisible(visible, front);
      RenderOptAllVisible(visible, back);
      RenderListAllVisible(visible, subs);
  }

  lemma {:induction false} RenderOptAllVisible(visible: Box -> bool, o: Option<Node>)
    requires QuadsVisibleOpt(visible, o)
    ensures RenderOpt(visible, o) == WalkOpt(o)
  {
    if o.Some? {
      RenderAllVisible(visible, o.value);
    }
  }

  lemma {:induction false} RenderListAllVisible(visible: Box -> bool, cs: seq<Node>)
    requires forall i :: 0 <= i < |cs| ==> QuadsVisible(visible, cs[i])
    ensures RenderList(visible, cs) == WalkList(cs)
  {
    if cs != [] {
      RenderAllVisible(visible, cs[0]);
      RenderListAllVisible(visible, cs[1..]);
    }
  }

  /** A BSP node is always descended, whatever is visible: a constructed
      BSP tree is reached in full. */
  lemma {:induction false} BspTreeRenderedInFull(visible: Box -> bool, n: Node)
    requires BspTree.WellFormed(n)
    ensures Render(visible, n) == Walk(n)
  {
    BspTreeQuadsVisible(visible, n);
    RenderAllVisible(visible, n);
  }

  lemma {:induction false} BspTreeQuadsVisible(visible: Box -> bool, n: Node)
    requires BspTree.WellFormed(n)
    ensures QuadsVisible(visible, n)
  {
    if n.front.Some? {
      BspTreeQuadsVisible(visible, n.front.value);
    }
    if n.back.Some? {
      BspTreeQuadsVisible(visible, n.back.value);
    }
  }
}
