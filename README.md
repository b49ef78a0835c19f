# Acceleration structures: BSP trees, quad trees and their visitors

This project models the acceleration-structure extension of a scene graph
engine. The extension builds binary space partition (BSP) trees and quad
trees over the faces of a scene, and combines them into a hybrid tree whose
quad leaves hold BSP trees. It also walks those trees for rendering (with
visibility pruning) and for a statistics/DOT export visitor.

The model is written in Dafny and covers these parts:

- **Divider selection** (`FindDividerStrategy`). The default strategy
  classifies each candidate against every other face and tallies front,
  back and spanning faces. It computes the balance relation as an exact
  ratio and keeps the best candidate. The judgement runs inside the inner
  loop, as the code does.
- **Partition strategies** (`PartitionStrategy`). Split and Divide.
- **BSP nodes** (`BspTree`). The recursive constructor, its one-step
  shape, well-formedness, a depth bound, face conservation under Divide,
  and cloning.
- **BSP transformer and BSP tree builder** (`BspTransformer`,
  `BspTreeBuilder`). Non-empty geometry is replaced by a BSP tree. The
  builder clones the scene, collects its geometry, transforms it and
  extracts the single child.
- **Quad nodes** (`QuadTree`). The recursive constructor with its leaf
  test and its split into quarters, well-formedness and cloning. It also
  holds the copy-constructor finding below.
- **Quad transformer and quad tree builder** (`QuadTransformer`,
  `QuadTreeBuilder`). Classes with their count and half-size fields and
  setters. Non-empty geometry is replaced by a quad tree and empty
  geometry is deleted, as an in-place walk over the sub-node list.
- **Hybrid builder** (`QuadBspBuilder`). Every quad leaf gets the BSP tree
  of its faces.
- **Accelerated rendering view** (`RenderingView`). The visit order, with
  invisible quad subtrees pruned and BSP nodes always descended.
- **DOT visitor** (`DotVisitor`). The BSP statistics visitor (weight,
  face count, min and max depth) and the edge list of a quad node.

Scene nodes are values (`Scene.Node`): geometry, plain scene, quad and BSP
nodes, each with its list of sub-nodes. A face is compared by identity,
and a face set is a sequence, because every loop in the code follows list
order. The geometry library (plane classification, `Split`, `Divide`,
bounding squares, the two axis dividers) is floating-point code outside
the model. It is a record of functions (`Geometry.Library`), and the
ghost predicates `ValidLibrary` and `QuadTree.QuartersShrink` state what
the tree code relies on. Every operation that loops or changes state in
the code is a `method` proved equal to a specification function. Those
functions carry the lemmas.

Where the documentation and the code disagree, the model follows the code:

- **Judging on partial counts.** A candidate divider is judged after each
  comparison, not on its complete tally
  (Scene/BSPFindDividerStrategy.h:94-110). So the chosen divider need not
  be the one with the fewest spans
  (`FindDividerStrategy.PartialCountsChooseMoreSpans` shows three faces
  where it is not).
- **Empty geometry under the BSP transformer.** The BSP transformer leaves
  an empty geometry node where it is (Scene/BSPTransformer.cpp:28). It
  does not delete it.
- **Quad transformer defaults.** The quad transformer's defaults are a
  count of 500 and a half size of 100 (Scene/QuadTransformer.cpp:19-20).
  The comments say 100 and 10.
- **Effective leaf half size.** The quad tree builder stores half the size
  it is given and hands that to the transformer's `SetMaxQuadSize`, which
  halves it again (Scene/QuadTreeBuilder.cpp:50-51). The effective leaf
  half size is therefore a quarter of the size: 2.5 with the default 10.

## Model

| member | source | states |
|---|---|---|
| Geometry.Add | Scene/BSPPartitionStrategy.h:56-57 | the appended set keeps the original faces as its prefix and the added ones as its suffix |
| FindDividerStrategy.Classify | Scene/BSPFindDividerStrategy.h:74-93 | the switch on the sign sum: coplanar iff no sign is set; front iff some positive and no negative; back iff some negative and no positive; spanning iff both |
| FindDividerStrategy.Balance | Scene/BSPFindDividerStrategy.h:95-102 | the relation is in [0, 1]; it is 0 iff a side is empty, 1 iff both sides are equal and non-empty, otherwise min/max |
| FindDividerStrategy.Judge | Scene/BSPFindDividerStrategy.h:104-110 | the best is replaced only by a candidate with strictly fewer spans, or equal spans and a strictly greater relation; `min_split` never grows; with a zero minimum it ends no larger than the judged span count |
| FindDividerStrategy.Divider | Scene/BSPFindDividerStrategy.h:48-117 | an error exactly for the empty set; otherwise a face of the set; the only face of a one-face set |
| FindDividerStrategy.FindDivider | Scene/BSPFindDividerStrategy.h:48-117 | the relax-and-retry loop with its two nested loops returns exactly `Divider` |
| FindDividerStrategy.TryCandidate | Scene/BSPFindDividerStrategy.h:68-111 | the inner loop over the compared faces yields the specified inner pass |
| FindDividerStrategy.CountPosition | Scene/BSPFindDividerStrategy.h:74-93 | bumps exactly the tally that `Classify` names |
| FindDividerStrategy.Relation | Scene/BSPFindDividerStrategy.h:95-102 | the relation computed as the code does equals `Balance` |
| FindDividerStrategy.InnerMember | Scene/BSPFindDividerStrategy.h:107 | during a candidate's inner loop the held face stays an element of the set |
| FindDividerStrategy.PassMember | Scene/BSPFindDividerStrategy.h:107 | over a whole pass the held face is always an element of the set |
| FindDividerStrategy.InnerKeepsFound | Scene/BSPFindDividerStrategy.h:104-110 | once a face is held during an inner loop it stays held |
| FindDividerStrategy.PassKeepsFound | Scene/BSPFindDividerStrategy.h:104-110 | once a face is held during a pass it stays held |
| FindDividerStrategy.FirstPassFinds | Scene/BSPFindDividerStrategy.h:104-114 | with the zero minimum relation and two or more faces the first pass holds a face, so the retry loop runs once |
| FindDividerStrategy.InnerMinSplitShrinks | Scene/BSPFindDividerStrategy.h:104-110 | `min_split` never increases within an inner loop |
| FindDividerStrategy.PassMinSplitShrinks | Scene/BSPFindDividerStrategy.h:104-110 | `min_split` never increases across a pass |
| FindDividerStrategy.CandidateJudgedOnFullTally | Scene/BSPFindDividerStrategy.h:104-111 | after a candidate's inner loop, `min_split` is at most its complete span count |
| FindDividerStrategy.FewestSpans | Scene/BSPFindDividerStrategy.h:66-115 | the search ends with `min_split` at most every candidate's complete span count |
| FindDividerStrategy.TallyAllFront | Scene/BSPFindDividerStrategy.h:69-93 | when every face is in front of every other, no candidate tallies back or spanning faces |
| FindDividerStrategy.InnerStaysFirst | Scene/BSPFindDividerStrategy.h:104-110 | on such a set, once the first face is held with no spans, an inner loop keeps it |
| FindDividerStrategy.PassStaysFirst | Scene/BSPFindDividerStrategy.h:104-110 | on such a set every prefix of the pass holds the first face |
| FindDividerStrategy.ConvexSetPicksFirst | Scene/BSPFindDividerStrategy.h:48-117 | a set whose faces are all in front of one another gets its first face as divider (first-found wins ties) |
| FindDividerStrategy.PartialCountsChooseMoreSpans | Scene/BSPFindDividerStrategy.h:94-110 | because judging happens on partial counts, a face with one span is chosen over a face with none |
| PartitionStrategy.SplitPartition | Scene/BSPPartitionStrategy.h:42-46 | the three outputs are exactly the library split's, nothing added |
| PartitionStrategy.DividePartition | Scene/BSPPartitionStrategy.h:51-58 | span is what `Divide` produced; front and back keep `Divide`'s faces as a prefix and gain every straddling face |
| PartitionStrategy.PartitionBy | Scene/BSPNode.cpp:75 | the strategy call gives the configured policy's partition |
| PartitionStrategy.PartitionShrinks | Scene/BSPNode.cpp:77-81 | partitioning by a face of the set keeps that face in the span and leaves each side smaller than the set |
| PartitionStrategy.PartitionKeepsSetsDistinct | Scene/BSPPartitionStrategy.h:51-58 | front and back sets hold each face at most once when the input does |
| PartitionStrategy.DivideKeepsEveryFace | Scene/BSPPartitionStrategy.h:54-57 | under Divide, front, span and back together hold exactly the input faces |
| Scene.SubNodeOrder | Scene/QuadNode.cpp:153-161 | the visiting order lists each present child and every sub-node once, all strictly smaller than the node |
| Scene.Walk | Scene/BSPNode.cpp:107-117 | a visit of a node starts at the node itself |
| Scene.AllFacesElems | Scene/BSPTreeBuilder.cpp:49 | the faces met in visiting order are exactly the faces of the tree's geometry |
| Scene.ContainerFaces | Scene/BSPTreeBuilder.cpp:45-46 | wrapping the clone in a fresh container adds no faces and drops none |
| Scene.Dedup | Scene/BSPTreeBuilder.cpp:49 | the collected set holds each face once, the same faces, and is empty iff no face was met |
| Scene.Collect | Scene/BSPTreeBuilder.cpp:49 | collection leaves one geometry node holding every face of the container once |
| Scene.ShallowCopy | Scene/BSPNode.cpp:23-28 | the copy shares divider, front, back and span and has no sub-nodes |
| Scene.Clone | Scene/BSPNode.cpp:30-42 | the node kind is kept; a BSP clone has the cloned first sub-node as its only sub-node and its span rebound to that node's faces, and keeps the divider and child presence; a quad clone keeps its box and child presence, with absent children copied as null (the corrected copy, see Findings) |
| BspTree.Step | Scene/BSPNode.cpp:71-81 | with a valid library, both sides of the partition are smaller than the set and hold each face once, and the divider lies in the span |
| BspTree.Build | Scene/BSPNode.cpp:60-86 | the recursive constructor ends and yields a BSP node |
| BspTree.NewBSPNode | Scene/BSPNode.cpp:60-86 | the empty set fails with the divider error; otherwise the node is `Build` of the set |
| BspTree.BuildStep | Scene/BSPNode.cpp:64-81 | the divider is the strategy's choice; the span and the only sub-node are the partition's span; a child exists iff its partition side is non-empty and is built from it |
| BspTree.BuildWellFormed | Scene/BSPNode.cpp:60-86 | every constructed node has its span geometry as its only sub-node, its divider in its span, and well-formed children |
| BspTree.BuildHeightBounded | Scene/BSPNode.cpp:77-81 | the depth of the tree is at most the number of faces it was built from |
| BspTree.DivideTreeKeepsEveryFace | Scene/BSPNode.cpp:72-81 | under Divide the tree's geometry holds exactly the input faces |
| BspTree.DivideChildFaces | Scene/BSPNode.cpp:78-81 | under Divide each child's tree holds exactly its partition side |
| BspTree.CloneWellFormed | Scene/BSPNode.cpp:30-42 | cloning a constructed tree gives an equal tree |
| BspTransformer.Visit | Scene/BSPTransformer.cpp:27-31 | the visit keeps each node's kind, a geometry root, the quad box, the BSP divider and span, the child presence and the number of sub-nodes |
| BspTransformer.ReplaceAll | Scene/BSPTransformer.cpp:28-30 | each sub-node is replaced in its own position, none is deleted |
| BspTransformer.Transform | Scene/BSPTransformer.cpp:23-25 | the transform is the visit started at the root |
| BspTransformer.VisitNode | Scene/BSPTransformer.cpp:27-31 | the default visit with the geometry handler computes `Visit` |
| BspTransformer.VisitChild | Scene/BSPNode.cpp:110-115 | a present child is visited, an absent one stays absent |
| BspTransformer.ReplaceEntry | Scene/BSPTransformer.cpp:27-31 | a geometry node with faces becomes the BSP tree of its faces, an empty one stays, any other node is visited: `Replace` |
| BspTransformer.ReplaceSubNodes | Scene/BSPTransformer.cpp:28-30 | the loop over a parent's sub-nodes replaces each as `ReplaceAll` says |
| BspTransformer.DivideVisitKeepsFaces | Scene/BSPTransformer.cpp:28-30 | under Divide the transformed scene holds exactly the faces of the input scene |
| BspTransformer.DivideVisitOptKeepsFaces | Scene/BSPTransformer.cpp:28-30 | the same for an optional child |
| BspTransformer.DivideReplaceAllKeepsFaces | Scene/BSPTransformer.cpp:28-30 | the same for a sub-node list |
| BspTransformer.VisitSettles | Scene/BSPTransformer.cpp:27-31 | after the visit every sub-node entry is empty geometry, a well-formed BSP tree, or itself settled |
| BspTransformer.VisitOptSettles | Scene/BSPTransformer.cpp:27-31 | the same for an optional child |
| BspTransformer.ReplaceAllSettles | Scene/BSPTransformer.cpp:27-31 | the same for each entry of a sub-node list |
| BspTreeBuilder.Build | Scene/BSPTreeBuilder.cpp:37-62 | none iff the cloned scene has no face; otherwise a well-formed BSP tree of the collected faces, holding exactly the cloned scene's faces under Divide |
| QuadTree.Build | Scene/QuadNode.cpp:40-104 | the recursive constructor ends and yields a quad node whose box is the faces' bounding square |
| QuadTree.NewQuadNode | Scene/QuadNode.cpp:40-104 | the constructor with its leaf test, dividers, two-step split and children computes `Build` |
| QuadTree.BuildStep | Scene/QuadNode.cpp:53-97 | a node is a leaf iff the end condition holds; a leaf holds the input set and no children; otherwise a child exists iff its quarter is non-empty and is built from it with the same limits |
| QuadTree.BuildWellFormed | Scene/QuadNode.cpp:40-104 | every constructed node is a leaf meeting the end condition or an inner node whose box is too large and whose children are well formed |
| QuadTree.WellFormedLeafIff | Scene/QuadBSPBuilder.cpp:43 | in a constructed tree, having exactly one sub-node is the same as being a leaf |
| QuadTree.CloneWellFormed | Scene/QuadNode.cpp:136-144 | cloning a constructed tree gives an equal tree |
| QuadTree.CloneChildWellFormed | Scene/QuadNode.cpp:140-143 | cloning a constructed optional child gives the same child |
| QuadTree.CopySlotsAsWritten | Scene/QuadNode.cpp:136-144 | the copy constructor as written yields four child slots |
| QuadTree.CopySlots | Scene/QuadNode.cpp:136-144 | the copy constructor with null-initialised children yields four child slots |
| QuadTree.CopyOfLeafAsWrittenIsIndeterminate | Scene/QuadNode.cpp:136-144 | as written, copying any constructed leaf leaves all four child pointers indeterminate |
| QuadTree.CopySlotsMatchClone | Scene/QuadNode.cpp:136-144 | with null-initialised children the copy's slots are exactly the clone's children, never indeterminate |
| QuadTransformer.Entry | Scene/QuadTransformer.cpp:66-73 | an entry becomes nothing iff it is empty geometry, and never remains geometry |
| QuadTransformer.Visit | Scene/QuadTransformer.cpp:66-73 | the visit keeps each node's kind, a geometry root, the quad box and the child presence |
| QuadTransformer.ReplaceAll | Scene/QuadTransformer.cpp:66-73 | a visited sub-node list is no longer and holds no geometry node |
| QuadTransformer.ReplaceAllDeletesEmpty | Scene/QuadTransformer.cpp:66-73 | the visited list has one entry per entry that is not empty geometry, in the same order, each its replacement; so exactly the empty geometry nodes are deleted |
| QuadTransformer.VisitSettles | Scene/QuadTransformer.cpp:66-73 | after the visit every reachable sub-node list holds only well-formed quad trees and settled nodes |
| QuadTransformer.VisitOptSettles | Scene/QuadTransformer.cpp:66-73 | the same for an optional child |
| QuadTransformer.ReplaceAllSettles | Scene/QuadTransformer.cpp:66-73 | the same for each entry of a sub-node list |
| QuadTransformer.Transformer.constructor | Scene/QuadTransformer.cpp:19-20 | a new transformer has count 500 and half size 100 |
| QuadTransformer.Transformer.SetMaxFaceCount | Scene/QuadTransformer.cpp:47-49 | stores the count and leaves the half size |
| QuadTransformer.Transformer.SetMaxQuadSize | Scene/QuadTransformer.cpp:57-59 | stores half the size and leaves the count |
| QuadTransformer.Transformer.Transform | Scene/QuadTransformer.cpp:36-38 | the transform is the visit from the root with the stored limits, and its result is settled |
| QuadTransformer.VisitNode | Scene/QuadTransformer.cpp:66-73 | the default visit with the geometry handler computes `Visit` |
| QuadTransformer.VisitChild | Scene/QuadNode.cpp:155-158 | a present child is visited, an absent one stays absent |
| QuadTransformer.ReplaceEntry | Scene/QuadTransformer.cpp:66-73 | the handler's effect on one entry is `Entry` |
| QuadTransformer.ReplaceSubNodes | Scene/QuadTransformer.cpp:66-73 | the in-place walk with replace and delete computes `ReplaceAll` |
| QuadTransformer.ReplaceAllStep | Scene/QuadTransformer.cpp:66-73 | the visited list of a longer prefix extends the shorter one by the new entry's replacement |
| QuadTreeBuilder.Builder.constructor | Scene/QuadTreeBuilder.cpp:27-28 | stores the count and half the size (defaults 100 and 10) |
| QuadTreeBuilder.Builder.SetMaxFaceCount | Scene/QuadTreeBuilder.cpp:81-83 | stores the count and leaves the half size |
| QuadTreeBuilder.Builder.SetMaxQuadSize | Scene/QuadTreeBuilder.cpp:91-93 | stores half the size and leaves the count |
| QuadTreeBuilder.Builder.Build | Scene/QuadTreeBuilder.cpp:45-72 | none iff the cloned scene has no face; otherwise a well-formed quad tree of the collected faces with leaf half size a quarter of the configured size |
| QuadTreeBuilder.CollectThenQuad | Scene/QuadTreeBuilder.cpp:58-60 | after collecting and the quad visit the container holds the quad tree of the faces, or nothing when there are none |
| QuadTreeBuilder.Extracted | Scene/QuadTreeBuilder.cpp:63-67 | the container holds a single quad child exactly when the scene has a face, and that child is the built, well-formed quad tree |
| QuadBspBuilder.HybridList | Scene/QuadBSPBuilder.cpp:51 | every sub-node is visited in place |
| QuadBspBuilder.LeafFaces | Scene/QuadBSPBuilder.cpp:45-46 | the faces the BSP builder collects from a cloned quad leaf are exactly the leaf's faces |
| QuadBspBuilder.HybridOfQuadTree | Scene/QuadBSPBuilder.cpp:41-52 | the visit of a constructed quad tree keeps its quad structure and puts the BSP tree of each leaf's faces in place of its geometry |
| QuadBspBuilder.Build | Scene/QuadBSPBuilder.cpp:30-39 | none iff the scene has no face; otherwise the hybrid tree of the collected faces with the default limits |
| QuadBspBuilder.VisitQuadNode | Scene/QuadBSPBuilder.cpp:41-52 | add the BSP tree and remove the first sub-node on a leaf, otherwise recurse: computes `Hybrid` |
| QuadBspBuilder.VisitChild | Scene/QuadBSPBuilder.cpp:51 | a present child is visited, an absent one stays absent |
| QuadBspBuilder.VisitList | Scene/QuadBSPBuilder.cpp:51 | the loop over the sub-nodes computes `HybridList` |
| RenderingView.Render | Renderers/AcceleratedRenderingView.cpp:30-37 | the view's visit of a node starts at the node |
| RenderingView.InvisibleQuadIsPruned | Renderers/AcceleratedRenderingView.cpp:30-33 | nothing below an invisible quad node is visited |
| RenderingView.RenderIsSubsequence | Renderers/AcceleratedRenderingView.cpp:30-37 | the view visits nodes in full-visit order and only skips some |
| RenderingView.RenderOptIsSubsequence | Renderers/AcceleratedRenderingView.cpp:30-37 | the same for an optional child |
| RenderingView.RenderListIsSubsequence | Renderers/AcceleratedRenderingView.cpp:30-37 | the same for a sub-node list |
| RenderingView.RenderAllVisible | Renderers/AcceleratedRenderingView.cpp:30-37 | when every quad box below is visible the view visits exactly what a full visit does |
| RenderingView.RenderOptAllVisible | Renderers/AcceleratedRenderingView.cpp:30-37 | the same for an optional child |
| RenderingView.RenderListAllVisible | Renderers/AcceleratedRenderingView.cpp:30-37 | the same for a sub-node list |
| RenderingView.BspTreeRenderedInFull | Renderers/AcceleratedRenderingView.cpp:35-37 | a constructed BSP tree is always visited in full, whatever is visible |
| RenderingView.BspTreeQuadsVisible | Renderers/AcceleratedRenderingView.cpp:35-37 | a constructed BSP tree contains no quad node that could be pruned |
| DotVisitor.BSPStatsVisitor.constructor | Scene/ASDotVisitor.cpp:58 | all statistics start at zero |
| DotVisitor.BSPStatsVisitor.VisitBSPNode | Scene/ASDotVisitor.cpp:59-87 | min, max and weight become the node's statistics; count grows by one plus the span size for every node |
| DotVisitor.BspStats | Scene/ASDotVisitor.cpp:89-99 | face count and weight as specified; min depth is one plus the shortest path to a missing child, at least 2; max depth is the height plus one |
| DotVisitor.MinStatIsMinDepth | Scene/ASDotVisitor.cpp:60-79 | the min statistic is one plus the shortest path to a missing child, at least 2, and 2 when a child is missing (the zero branch never fires) |
| DotVisitor.MaxStatIsHeight | Scene/ASDotVisitor.cpp:61-80 | the max statistic is the tree height plus one |
| DotVisitor.WellFormedIsBspShaped | Scene/ASDotVisitor.cpp:59-87 | a constructed BSP tree is a tree the statistics visitor can walk |
| DotVisitor.WeightCountsNodes | Scene/ASDotVisitor.cpp:84-86 | the weight is the number of BSP nodes in the tree and the count is the weight plus the number of faces |
| DotVisitor.QuadEdges | Scene/ASDotVisitor.cpp:30-43 | the edge targets are the present quadrants tl, tr, bl, br and then the sub-nodes, the node's visiting order |

## Left out

- **Geometry arithmetic.** Floating point, plane classification, face
  splitting, bounding boxes and `epsilon` are library calls. They are
  fields of `Geometry.Library`. Their assumed properties are the ghost
  predicates `ValidLibrary` (split and divide shrink the set, keep faces
  distinct, and `Divide` conserves faces) and `QuadTree.QuartersShrink`
  (each quarter of a set that is not a leaf has a smaller abstract
  extent). Quad termination rests on the latter.
- FindDividerStrategy.Balance: the relation is an exact ratio, and the
  code's `cur_rel > best_rel` test (Scene/BSPFindDividerStrategy.h:102-106)
  compares floats. Beyond about 4096 faces two different ratios can round
  to the same float, and there the code can break a tie differently.
- **Not modelled:** serialization, the DOT text and its option order, the
  `rel` balance statistic (float), the accept-stack counters, `Accept`
  dispatch, `ComparePoint` (a delegation to the divider), and the getters
  (field selectors of the datatype).
- **Heap aliasing.**
  - The span set shared by a BSP node and its geometry sub-node is a
    value here.
  - `Split` with the same set as front and span output is modelled as
    front followed by span. The library's interleaving inside one list is
    not modelled.
- **Scene-graph machinery outside the extension.** This is not part of
  this model:
  - The collected-geometry transformer is modelled as replacing a
    container's sub-nodes by one geometry node with every face once
    (`Scene.Collect`).
  - `ReplaceNode` and `DeleteNode` are modelled as sequence updates; the
    iterator they may invalidate is not modelled.
  - `AddNode(NULL)` is modelled as adding nothing.
  - The base copy constructor is assumed to clone the sub-nodes.
  - Detaching the returned tree from the temporary container is not
    modelled.
- **Visitor scope.**
  - A node that the transformers put in place of a geometry node is not
    visited again.
  - A geometry node held as a quad or BSP child is left unchanged.
  - The hybrid builder does not derive from a visitor, so nodes of other
    kinds are left as they are.
- **Strategy choice.** The BSP transformer's strategies are a `Policy`
  parameter (Split or Divide). The BSP transformer calls a one-argument
  BSP node constructor that is declared but not defined
  (Scene/BSPTransformer.cpp:30).
- **QuadTreeBuilder's `faces` field and `VisitGeometryNode`** are
  declared but not defined, and are not modelled.
- FindDividerStrategy.FindDivider: requires each face at most once,
  because a face set holds each face once. The code compares faces by
  identity and skips a candidate's own copies. Only a set made of a
  single repeated face (such as [A, A]) makes the retry loop run
  forever. Repeats next to another face end and return a face. The model
  excludes every repeat.
- Scene.Clone, QuadTree.CloneWellFormed, QuadTree.CloneChildWellFormed,
  QuadBspBuilder.LeafFaces, QuadBspBuilder.HybridOfQuadTree: these model
  the corrected quad copy, with absent children copied as null. The copy
  constructor as written leaves them uninitialised (see Findings), so the
  hybrid builder as written reads indeterminate child pointers on every
  scene with a face. These contracts do not describe that behaviour.
- **Negative quad size.** `SetMaxQuadSize` accepts any size
  (Scene/QuadTransformer.cpp:57-59). With a negative size and more than
  `count` faces sharing one point, the bounding box has zero extent, so
  neither half of the end condition (Scene/QuadNode.cpp:53) ever holds
  and the constructor recurses forever. The model does not cover that
  input: `QuadTree.QuartersShrink` is assumed, and it fails there.
- BspTransformer.Transform: requires a root that the handler would not
  replace. Such a root has no parent to call.
- QuadTransformer.Transformer.Transform: requires a root that is not a
  geometry node. The handler would replace or delete it through a parent
  it does not have.

## Findings

| source | as written | input that shows it | evidently intended | confidence | as-written member | corrected member |
|---|---|---|---|---|---|---|
| Scene/QuadNode.cpp:136-144 | the copy constructor assigns a child pointer only when the original child is present, and the four child members are not in its initialiser list, so an absent child stays uninitialised | copying any quad leaf (all four children absent); `QuadBSPBuilder::Build` on any scene with a face, since every leaf it reaches is copied by the BSP tree builder (Scene/BSPTreeBuilder.cpp:47) and the copy is then visited (Scene/QuadNode.cpp:155-158) | absent children copied as null, as the constructor at line 40 initialises them | not executed | QuadTree.CopyOfLeafAsWrittenIsIndeterminate | QuadTree.CopySlotsMatchClone |
