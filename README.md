# Doubled de Bruijn graph (SPAdes `DeBruijnGraph`)

A Dafny model of the graph class of `assembler/src/debruijn/debruijn_graph.cpp`.
That file implements the doubled de Bruijn graph of an assembler. Every vertex
(a k-mer) and every edge (a sequence of at least k+1 bases) has a *conjugate*,
its reverse-complement twin. Vertices store only their outgoing edges:

- the incoming edges of v are the twins of the outgoing edges of conjugate(v);
- the start of an edge is the conjugate of the end of its twin.

The graph tells registered action handlers about every change.

## Structure

- `nucleotides.dfy` (`Nucleotides`): bases, complement, reverse complement (the
  `!s` of the graph's `Sequence`) and its algebra.
- `handles.dfy` (`Handles`): vertex, edge and handler handles. They are
  natural numbers, handed out in order and never reused, and stand in for the
  pointers `new` returns. The module also holds the list operations the graph
  performs on handles:
  - removing the first occurrence of an edge;
  - the closure of a set under the conjugate map;
  - picking one representative per conjugate pair.
- `notifications.dfy` (`Notifications`): the events the `Fire*` calls deliver,
  and class `Dispatcher`. `Dispatcher` holds the handler list and a log of every
  delivery, in order.
- `overlaps.dfy` (`Overlaps`): joining edge sequences on their k-base overlaps
  (AddMergedEdge) and cutting one in two (SplitEdge).
- `merge_paths.dfy` (`MergePaths`): CorrectMergePath as a function of the path
  and the edge conjugate map.
- `incidence.dfy` (`Incidence`): the list computations behind IncomingEdges,
  IncidentEdges and NeighbouringEdges.
- `graph_state.dfy` (`GraphStates`): the graph as a value, covering:
  - `Vertex` and `Edge` records and the `GraphState` that maps handles to them;
  - the well-formedness invariant `Valid`, under which every edge is listed at
    its start, lists hold no duplicates, and the conjugate links pair handles
    with reverse-complement twins;
  - the four primitive changes: add or remove a vertex pair, add or remove an
    edge pair.
- `merging.dfy`, `splitting.dfy`, `gluing.dfy`: MergePath, SplitEdge and
  GlueEdges, each as a transition of `GraphState`.
- `debruijn_graph.dfy` (`Graph`): class `DeBruijnGraph`.
  - It has the fields `k`, `vertices`, `edges` and a `dispatcher`. Every
    operation of the source file is a function (readers) or a method
    (mutators).
  - Each mutator states its new state through the transitions above, keeps
    `Valid` and states the exact notification log it appends.
  - Loops in the source are `while`/`for` loops with invariants. A loop that
    is long in the source is split into a one-turn method (CollectStep,
    DeleteOutgoingAt, DeleteEdgeOfSet, DeleteVertexOfSet) or a loop method
    (ConjugateEach, ScanTwins, AppendTwins, AppendAbsent, TwinPath,
    PadWithTwins, MergedNucls).
  - A few source functions are split into parts: AddEdgeAndTwin is the body of
    HiddenAddEdge; HiddenDeleteEdge is the removal part of DeleteEdge; GlueCopy
    and GlueFinish are the two halves of GlueEdges.

## Model

| member | source | states |
|---|---|---|
| Graph.DeBruijnGraph.ConjugateVertex | assembler/src/debruijn/debruijn_graph.cpp:224-226 | the conjugate of v is another present vertex whose conjugate is v |
| Graph.DeBruijnGraph.ConjugateEdge | assembler/src/debruijn/debruijn_graph.cpp:228-230 | the twin edge is present, its twin is e again, it carries the reverse complement of e, and it is e itself exactly when e's sequence is its own reverse complement |
| Graph.DeBruijnGraph.EdgeStart | assembler/src/debruijn/debruijn_graph.cpp:232-234 | the conjugate of the end of the twin is a vertex whose outgoing list holds e |
| Graph.DeBruijnGraph.EdgeEnd | assembler/src/debruijn/debruijn_graph.cpp:236-238 | the end of e is present, and e's twin leaves from the end's conjugate |
| Graph.DeBruijnGraph.EdgeNucls | assembler/src/debruijn/debruijn_graph.cpp:324-325 | an edge sequence is longer than k and is the reverse complement of its twin's |
| Graph.DeBruijnGraph.Length | assembler/src/debruijn/debruijn_graph.cpp:322 | the length of an edge is at least 1, and length + k is the number of its bases |
| Graph.DeBruijnGraph.OutgoingEdges | assembler/src/debruijn/debruijn_graph.cpp:30-32 | v's list holds no duplicates and holds exactly the edges whose start is v |
| Graph.DeBruijnGraph.IncomingEdges | assembler/src/debruijn/debruijn_graph.cpp:34-42 | the result is the twins of conjugate(v)'s outgoing edges, in order, and holds exactly the edges ending at v |
| Graph.DeBruijnGraph.ConjugateEach | assembler/src/debruijn/debruijn_graph.cpp:38-40 | the loop builds the list of twins, position by position |
| Graph.DeBruijnGraph.IsDeadEnd | assembler/src/debruijn/debruijn_graph.cpp:156 | true exactly when no edge starts at v |
| Graph.DeBruijnGraph.IsDeadStart | assembler/src/debruijn/debruijn_graph.cpp:156 | true exactly when no edge ends at v |
| Graph.DeBruijnGraph.GetUniqueOutgoingEdge | assembler/src/debruijn/debruijn_graph.cpp:248 | for a vertex that lists one edge, that edge is the only edge starting at v |
| Graph.DeBruijnGraph.GetUniqueIncomingEdge | assembler/src/debruijn/debruijn_graph.cpp:248 | for a vertex whose conjugate lists one edge, the twin of that edge is the only edge ending at v |
| Graph.DeBruijnGraph.CanCompressVertex | assembler/src/debruijn/debruijn_graph.cpp:240-243 | true exactly when one edge starts at v and one edge ends at v |
| Graph.DeBruijnGraph.VertexNucls | assembler/src/debruijn/debruijn_graph.cpp:7-14 | the k-mer of v is the first k bases of its first outgoing edge or, without one, the last k bases of the twin of conjugate(v)'s first outgoing edge; defined only when one of the two lists is non-empty, the case in which the source does not reach `assert(false)` |
| Graph.DeBruijnGraph.AreLinkable | assembler/src/debruijn/debruijn_graph.cpp:208-211 | true exactly when nucls begins with v1's k-mer and ends with the reverse complement of conjugate(v2)'s k-mer; v2's k-mer is read, and needs an edge at v2 or its conjugate, only when the first test passes, as `&&` short-circuits |
| Graph.DeBruijnGraph.OutgoingEdge | assembler/src/debruijn/debruijn_graph.cpp:213-222 | a found edge starts at v, has nucl right after its first k bases, and is the first such edge in v's list; nothing is found exactly when no edge leaving v has that base there |
| Graph.DeBruijnGraph.Find | assembler/src/debruijn/debruijn_graph.cpp:55-60 | the inner scan reports true exactly when x occurs in the list |
| Graph.DeBruijnGraph.ScanTwins | assembler/src/debruijn/debruijn_graph.cpp:53-65 | IncidentEdges' second loop computes IncidentScan: a twin is appended unless the unconjugated edge is already listed |
| Graph.DeBruijnGraph.IncidentEdges | assembler/src/debruijn/debruijn_graph.cpp:44-67 | as written: the result is v's list followed by IncidentScan of conjugate(v)'s list, and every edge in it starts or ends at v |
| Graph.DeBruijnGraph.AppendTwins | assembler/src/debruijn/debruijn_graph.cpp:53-65 | the corrected second loop appends each twin that is not yet listed |
| Graph.DeBruijnGraph.IncidentEdgesCorrected | assembler/src/debruijn/debruijn_graph.cpp:44-67 | corrected: the result holds every edge that starts or ends at v, and each only once |
| Graph.DeBruijnGraph.AppendAbsent | assembler/src/debruijn/debruijn_graph.cpp:75-85 | NeighbouringEdges' loop appends the members of the second list that are not yet in the result, in order |
| Graph.DeBruijnGraph.NeighbouringEdges | assembler/src/debruijn/debruijn_graph.cpp:69-88 | as written, on the as-written IncidentEdges: the result is IncidentScan at the start of e followed by the new members of IncidentScan at its end, and every edge in it touches an end of e |
| Graph.DeBruijnGraph.NeighbouringEdgesCorrected | assembler/src/debruijn/debruijn_graph.cpp:69-88 | corrected, on IncidentEdgesCorrected: the result has no duplicates and holds exactly the edges that touch the start or the end of e |
| Incidence.NeighbouringLoopTwice | assembler/src/debruijn/debruijn_graph.cpp:69-88 | as written, the loop listed twice by IncidentEdges stays listed twice in NeighbouringEdges, whatever the second list |
| Graph.DeBruijnGraph.CorrectMergePath | assembler/src/debruijn/debruijn_graph.cpp:260-279 | the loop computes MergePaths.CorrectedPath (the path, padded, or its twin path, padded) |
| Graph.DeBruijnGraph.TwinPath | assembler/src/debruijn/debruijn_graph.cpp:265-266 | position j holds the twin of path[size-1-j] |
| Graph.DeBruijnGraph.PadWithTwins | assembler/src/debruijn/debruijn_graph.cpp:271-274 | the path is kept, and each new position j holds the twin of position size-1-j |
| Graph.DeBruijnGraph.MergedNucls | assembler/src/debruijn/debruijn_graph.cpp:294-299 | the SequenceBuilder yields the path's sequences joined on their k-base overlaps |
| Graph.DeBruijnGraph.AddMergedEdge | assembler/src/debruijn/debruijn_graph.cpp:291-301 | a fresh edge pair runs from the start of the first edge to the end of the last edge and carries the joined sequence; the graph stays well formed |
| Graph.DeBruijnGraph.MergePath | assembler/src/debruijn/debruijn_graph.cpp:281-289 | the corrected path is replaced by the merged edge pair. The handlers hear, in this order: the merge of the corrected path; one EdgeDeleted per conjugate pair of the path; the vertex deletions; and last the new edge |
| Graph.DeBruijnGraph.MergeCorrected | assembler/src/debruijn/debruijn_graph.cpp:284-288 | the same as MergePath, for a path that is already corrected |
| Graph.DeBruijnGraph.Merge | assembler/src/debruijn/debruijn_graph.cpp:252-258 | edge1 and edge2, which must meet at a vertex, are merged as the path [edge1, edge2], with MergePath's log |
| Graph.DeBruijnGraph.CompressVertex | assembler/src/debruijn/debruijn_graph.cpp:245-250 | a compressible vertex has its incoming and outgoing edges merged; if neither edge is its own twin, the vertex and its conjugate are gone afterwards; any other vertex leaves graph and log unchanged |
| Graph.DeBruijnGraph.HiddenAddVertex | assembler/src/debruijn/debruijn_graph.cpp:139-147 | adds exactly two fresh vertices, each the other's conjugate, both without edges; edges are untouched |
| Graph.DeBruijnGraph.AddVertex | assembler/src/debruijn/debruijn_graph.cpp:149-153 | HiddenAddVertex's new state, then one VertexAdded delivery per handler |
| Graph.DeBruijnGraph.AddSingleEdge | assembler/src/debruijn/debruijn_graph.cpp:16-21 | one fresh edge record is added and appended to v1's list; nothing else changes |
| Graph.DeBruijnGraph.HiddenAddEdge | assembler/src/debruijn/debruijn_graph.cpp:172-186 | the new state is AddEdgePair (one edge for a palindromic sequence, else two); the graph stays well formed; the returned handle is fresh |
| Graph.DeBruijnGraph.AddEdgeAndTwin | assembler/src/debruijn/debruijn_graph.cpp:177-185 | the AddSingleEdge calls plus the conjugate links give AddEdgePair's state |
| Graph.DeBruijnGraph.AddEdge | assembler/src/debruijn/debruijn_graph.cpp:188-193 | HiddenAddEdge's state, then one EdgeAdded for the new edge only, not its twin |
| Graph.DeBruijnGraph.RemoveOutgoingEdge | assembler/src/debruijn/debruijn_graph.cpp:200-201 | only v's list changes, losing the first occurrence of e |
| Graph.DeBruijnGraph.DeleteEdge | assembler/src/debruijn/debruijn_graph.cpp:195-206 | the handlers are told first; then e and its twin leave both lists and the edge map (one handle for a self-conjugate edge); vertices stay |
| Graph.DeBruijnGraph.HiddenDeleteEdge | assembler/src/debruijn/debruijn_graph.cpp:197-205 | the removal of DeleteEdge: the state RemoveEdgePair, edges minus e and its twin, well formed |
| Graph.DeBruijnGraph.DeleteVertex | assembler/src/debruijn/debruijn_graph.cpp:155-164 | the vertex must have no edges in or out; the handlers are told, then exactly v and its conjugate leave; edges are untouched |
| Graph.DeBruijnGraph.DeadIsIsolated | assembler/src/debruijn/debruijn_graph.cpp:156 | a dead-end, dead-start vertex and its conjugate both have empty lists |
| Graph.DeBruijnGraph.DeleteAllOutgoingAsWritten | assembler/src/debruijn/debruijn_graph.cpp:23-28 | as written: on a list without twin pairs, every listed edge and its twin is deleted, one EdgeDeleted per listed edge |
| Graph.DeBruijnGraph.DeleteAllOutgoing | assembler/src/debruijn/debruijn_graph.cpp:23-28 | corrected: every edge leaving v goes with its twin, and the handlers hear of each conjugate pair once, in list order |
| Graph.DeBruijnGraph.DeleteOutgoingAt | assembler/src/debruijn/debruijn_graph.cpp:25-27 | one turn deletes the i-th edge unless it already went as a twin; this extends the removed closure and the log by one listed prefix |
| Graph.DeBruijnGraph.ForceDeleteVertex | assembler/src/debruijn/debruijn_graph.cpp:166-170 | built on the corrected DeleteAllOutgoing: exactly the edges touching v or its conjugate are removed, then exactly the vertex pair; the log is both DeleteAllOutgoing logs, then VertexDeleted(v) |
| Graph.DeBruijnGraph.CollectPath | assembler/src/debruijn/debruijn_graph.cpp:304-314 | edgesToDelete is one edge per conjugate pair of the path, the first edge always included; verticesToDelete is one vertex per pair among the starts of the later edges |
| Graph.DeBruijnGraph.CollectStep | assembler/src/debruijn/debruijn_graph.cpp:307-314 | one turn of the collecting loop extends both representative sets by one path position |
| Graph.DeBruijnGraph.DeleteEdgeSet | assembler/src/debruijn/debruijn_graph.cpp:315-316 | DeleteEdge on each member of a pair-free set removes the set's conjugate closure, with one EdgeDeleted per member in some order of the set |
| Graph.DeBruijnGraph.DeleteEdgeOfSet | assembler/src/debruijn/debruijn_graph.cpp:316 | one turn adds a member's pair to the removed closure and its deletion to the log |
| Graph.DeBruijnGraph.DeleteVertexSet | assembler/src/debruijn/debruijn_graph.cpp:317-318 | DeleteVertex on each member of a pair-free set of edgeless vertices removes the set's conjugate closure, with one VertexDeleted per member |
| Graph.DeBruijnGraph.DeleteVertexOfSet | assembler/src/debruijn/debruijn_graph.cpp:318 | one turn adds a member's pair to the removed vertices and its deletion to the log |
| Graph.DeBruijnGraph.DeletePath | assembler/src/debruijn/debruijn_graph.cpp:303-319 | every path edge goes with its twin, then every interior vertex with its conjugate; the log is the edge deletions then the vertex deletions, one per conjugate pair |
| Graph.DeBruijnGraph.SplitEdge | assembler/src/debruijn/debruijn_graph.cpp:321-337 | the new state is SplitResult; the log is Split, VertexAdded, EdgeAdded(newEdge1), EdgeAdded(newEdge2), and only then EdgeDeleted(edge); the graph stays well formed |
| Graph.DeBruijnGraph.GlueCopy | assembler/src/debruijn/debruijn_graph.cpp:340-344 | a copy of edge2 is added; the log is Glued, EdgeDeleted(edge1), EdgeDeleted(edge2), EdgeAdded(copy) |
| Graph.DeBruijnGraph.DeleteIfDead | assembler/src/debruijn/debruijn_graph.cpp:348-350 | the vertex goes with its conjugate exactly when it is present and touches no edge, and the deletion is logged |
| Graph.DeBruijnGraph.GlueFinish | assembler/src/debruijn/debruijn_graph.cpp:348-353 | the dead-vertex checks of start and then end are applied in that order |
| Graph.DeBruijnGraph.GlueEdges | assembler/src/debruijn/debruijn_graph.cpp:339-354 | as written: the new state is GlueAsWritten (copy added, only edge1 deleted, dead ends removed); edge1's deletion is logged a second time |
| Graph.DeBruijnGraph.GlueEdgesCorrected | assembler/src/debruijn/debruijn_graph.cpp:339-354 | corrected: the new state is GlueResult (both edges deleted), and every deletion is logged once |
| Graph.DeBruijnGraph.HiddenDeleteBoth | assembler/src/debruijn/debruijn_graph.cpp:347 | the corrected deletion removes edge1, then edge2 unless edge2 already went with edge1 |
| Notifications.Dispatcher.Fire | assembler/src/debruijn/debruijn_graph.cpp:90-137 | every Fire* call appends one delivery of the event to each handler, in registration order |
| Notifications.Broadcast | assembler/src/debruijn/debruijn_graph.cpp:91-94 | one notification per handler, the i-th going to the i-th handler |
| Notifications.BroadcastAllEvents | assembler/src/debruijn/debruijn_graph.cpp:90-137 | every delivery of a broadcast series goes to a registered handler and carries one of the series' events |
| GraphStates.AddVertexPairValid | assembler/src/debruijn/debruijn_graph.cpp:139-147 | HiddenAddVertex keeps the graph well formed and adds two fresh, edgeless vertices that are each other's conjugate |
| GraphStates.AddEdgePairRecords | assembler/src/debruijn/debruijn_graph.cpp:172-186 | HiddenAddEdge adds the edge v1 to v2 carrying nucls. Unless nucls is its own reverse complement, it also adds a distinct twin from conjugate(v2) to conjugate(v1) carrying the reverse complement. The two are each other's conjugate and both carry the coverage |
| GraphStates.AddEdgePairKeeps | assembler/src/debruijn/debruijn_graph.cpp:177-185 | HiddenAddEdge keeps the vertex set and every existing edge record |
| GraphStates.AddEdgePairOutgoing | assembler/src/debruijn/debruijn_graph.cpp:177-181 | the new edge is appended to v1's list and a separate twin to conjugate(v2)'s; no other list changes |
| GraphStates.AddEdgePairValid | assembler/src/debruijn/debruijn_graph.cpp:172-186 | HiddenAddEdge keeps the graph well formed |
| GraphStates.TwinListedAtConjugateEnd | assembler/src/debruijn/debruijn_graph.cpp:232-234 | the twin of an edge starts at the conjugate of the edge's end and is listed there |
| GraphStates.SelfConjugateEnd | assembler/src/debruijn/debruijn_graph.cpp:179-184 | a self-conjugate edge runs from a vertex to that vertex's conjugate |
| GraphStates.EdgeConjugatesInvolution | assembler/src/debruijn/debruijn_graph.cpp:183-184 | the edge conjugate links form an involution |
| GraphStates.VertexConjugatesInvolution | assembler/src/debruijn/debruijn_graph.cpp:142-143 | the vertex conjugate links form an involution |
| GraphStates.OutgoingAll | assembler/src/debruijn/debruijn_graph.cpp:213-216 | v's list holds exactly the edges that start at v, each longer than k |
| GraphStates.IncomingAll | assembler/src/debruijn/debruijn_graph.cpp:34-42 | the twins of conjugate(v)'s list are exactly the edges that end at v |
| GraphStates.StartingAtCount | assembler/src/debruijn/debruijn_graph.cpp:241 | as many edges start at v as v lists |
| GraphStates.EndingAtCount | assembler/src/debruijn/debruijn_graph.cpp:241-242 | as many edges end at v as conjugate(v) lists |
| GraphStates.RemoveEdgePairShape | assembler/src/debruijn/debruijn_graph.cpp:195-206 | DeleteEdge releases exactly the edge and its twin and keeps every vertex with its conjugate |
| GraphStates.RemoveEdgePairOutgoing | assembler/src/debruijn/debruijn_graph.cpp:197-201 | the two RemoveOutgoingEdge calls filter the edge and its twin out of every list, and nothing else |
| GraphStates.RemoveEdgePairValid | assembler/src/debruijn/debruijn_graph.cpp:195-206 | DeleteEdge keeps the graph well formed |
| GraphStates.IsolatedNoEnds | assembler/src/debruijn/debruijn_graph.cpp:156 | no edge ends at an isolated vertex or at its conjugate, so deleting the pair leaves no dangling end |
| GraphStates.RemoveVertexPairValid | assembler/src/debruijn/debruijn_graph.cpp:155-164 | DeleteVertex keeps the graph well formed, removes exactly the pair and keeps every edge |
| GraphStates.HairpinTwinListed | assembler/src/debruijn/debruijn_graph.cpp:23-28 | the twin of a hairpin from v to conjugate(v) is also in v's list, so the list is not pair-free, and DeleteEdge of the hairpin releases the twin the copied list deletes next |
| GraphStates.DeleteStep | assembler/src/debruijn/debruijn_graph.cpp:25-27 | deleting the next still-present listed edge removes the closure of the next prefix |
| GraphStates.TouchingClosures | assembler/src/debruijn/debruijn_graph.cpp:166-170 | the two DeleteAllOutgoing passes remove exactly the edges touching v or conjugate(v) |
| GraphStates.ForceDeleteEdges | assembler/src/debruijn/debruijn_graph.cpp:167-168 | the second pass, working on what the first left, completes the removal of the touching edges |
| GraphStates.CollectFacts | assembler/src/debruijn/debruijn_graph.cpp:308-313 | an edge joins the edge set unless its twin is there, and its start joins the vertex set unless that vertex's conjugate is there |
| GraphStates.EdgeSetStep | assembler/src/debruijn/debruijn_graph.cpp:315-316 | an unhandled member of a pair-free edge set is still present, and deleting it removes its pair |
| GraphStates.VertexSetStep | assembler/src/debruijn/debruijn_graph.cpp:317-318 | an unhandled member of a pair-free vertex set is still present with its conjugate, and deleting it removes the pair |
| GraphStates.PathEmptied | assembler/src/debruijn/debruijn_graph.cpp:315-318 | once the edges of a deletable path and their twins are gone, each interior vertex and its conjugate have empty lists, as DeleteVertex asserts |
| GraphStates.KeptByDeletePath | assembler/src/debruijn/debruijn_graph.cpp:303-319 | a vertex that lists an edge outside the path's closure is not deleted, and neither is its conjugate |
| Handles.RemoveFirst | assembler/src/debruijn/debruijn_graph.cpp:200-201 | removing an absent edge changes nothing; a present one shortens the list by one and adds nothing |
| Handles.RemoveFirstIsWithout | assembler/src/debruijn/debruijn_graph.cpp:200 | on a duplicate-free list, removal by identity is filtering |
| Handles.RemovePairIsWithout | assembler/src/debruijn/debruijn_graph.cpp:200-201 | the two removals of DeleteEdge on one duplicate-free list filter out both handles |
| Handles.FirstOfPairsClosure | assembler/src/debruijn/debruijn_graph.cpp:306-314 | one representative per conjugate pair covers the same pairs as the path |
| Handles.FirstOfPairsPairFree | assembler/src/debruijn/debruijn_graph.cpp:306-314 | the representatives are distinct and no two are twins |
| Handles.FirstOfPairsOfPairFree | assembler/src/debruijn/debruijn_graph.cpp:23-28 | on a list with no repeats and no twin pair every element is its pair's representative, so the corrected DeleteAllOutgoing logs exactly what the as-written one logs wherever the latter is defined |
| Handles.FirstOfPairsHead | assembler/src/debruijn/debruijn_graph.cpp:306 | the first element always represents its pair |
| Handles.FirstOfPairsSetStep | assembler/src/debruijn/debruijn_graph.cpp:309-310 | the set grows by the next element exactly when its twin is not in it yet, the test DeletePath makes |
| Incidence.ConjugateAllDistinct | assembler/src/debruijn/debruijn_graph.cpp:38-40 | the twins of distinct edges are distinct |
| Incidence.AppendNew | assembler/src/debruijn/debruijn_graph.cpp:75-85 | the first list is kept as a prefix, and the result holds exactly the members of both |
| Incidence.AppendNewDistinct | assembler/src/debruijn/debruijn_graph.cpp:75-85 | appending only new members introduces no repetition |
| Incidence.IncidentScanWithin | assembler/src/debruijn/debruijn_graph.cpp:53-65 | everything the as-written scan lists is an outgoing edge or a twin of one of conjugate(v)'s edges |
| Incidence.IncidentScanLoopTwice | assembler/src/debruijn/debruijn_graph.cpp:53-65 | as written, a loop v to v that is not its own twin is listed twice |
| Incidence.IncidentScanHairpinLoses | assembler/src/debruijn/debruijn_graph.cpp:53-65 | as written, of two twins that both run from conjugate(v) to v, only one is listed |
| MergePaths.FirstSelfConjugate | assembler/src/debruijn/debruijn_graph.cpp:262-263 | the index of the first self-conjugate edge: none before it, and the path's length when there is none |
| MergePaths.FirstSelfConjugateAt | assembler/src/debruijn/debruijn_graph.cpp:262-263 | the scan stops at the first self-conjugate edge |
| MergePaths.ConjugateReverse | assembler/src/debruijn/debruijn_graph.cpp:265-266 | the twin path: position j holds the twin of position size-1-j |
| MergePaths.PadMirror | assembler/src/debruijn/debruijn_graph.cpp:271-274 | the padded path keeps the path and fills position j with the twin of size-1-j |
| MergePaths.CorrectedPathPlain | assembler/src/debruijn/debruijn_graph.cpp:278 | a path without a self-conjugate edge is kept as it is |
| MergePaths.CorrectedPathPadded | assembler/src/debruijn/debruijn_graph.cpp:263-275 | with the first self-conjugate edge at i, the twin path is padded when i lies in the first half, and the path itself is padded otherwise |
| MergePaths.CorrectedPathKeeps | assembler/src/debruijn/debruijn_graph.cpp:268-274 | second half: the corrected path has length 2i+1, starts with the path, and its tail holds the twins of the mirrored positions |
| MergePaths.CorrectedPathMirrors | assembler/src/debruijn/debruijn_graph.cpp:264-274 | first half: the corrected path starts with the twin path, has length 2(n-1-i)+1, and its tail continues the original path |
| MergePaths.CorrectedPathCentred | assembler/src/debruijn/debruijn_graph.cpp:260-279 | with a self-conjugate edge, the corrected path has odd length and a self-conjugate edge in its middle |
| MergePaths.CorrectedPathMirrorTail | assembler/src/debruijn/debruijn_graph.cpp:271-274 | every appended position holds the twin of its mirror position |
| MergePaths.CorrectedPathWithin | assembler/src/debruijn/debruijn_graph.cpp:260-279 | every edge of the corrected path is a path edge or the twin of one |
| MergePaths.CorrectedPathCovers | assembler/src/debruijn/debruijn_graph.cpp:260-279 | every path edge is on the corrected path, itself or as its twin |
| MergePaths.CorrectedPathSamePairs | assembler/src/debruijn/debruijn_graph.cpp:260-279 | the corrected path covers the same conjugate pairs as the path |
| MergePaths.CorrectedPathPair | assembler/src/debruijn/debruijn_graph.cpp:252-258 | Merge's two-edge path is kept when neither edge is its own twin |
| Merging.MergedPath | assembler/src/debruijn/debruijn_graph.cpp:282 | the corrected path is at least as long as the path and uses present edges only |
| Merging.MergeAdded | assembler/src/debruijn/debruijn_graph.cpp:291-301 | AddMergedEdge keeps every existing edge |
| Merging.MergedPathSamePairs | assembler/src/debruijn/debruijn_graph.cpp:282 | correcting the path changes none of the conjugate pairs that merging deletes |
| Merging.MergeEdgesKept | assembler/src/debruijn/debruijn_graph.cpp:284-286 | adding the merged edge changes neither the twins of the path's edges nor its representatives |
| Merging.MergeRemovesPathPairs | assembler/src/debruijn/debruijn_graph.cpp:284-286 | merging removes exactly the corrected path's edges and their twins, and adds only the merged pair |
| Merging.MergePathEdges | assembler/src/debruijn/debruijn_graph.cpp:281-289 | MergePath leaves the old edges minus the path's pairs, plus the merged pair |
| Merging.MergeNewEdge | assembler/src/debruijn/debruijn_graph.cpp:291-301 | the merged edge survives DeletePath; it runs from the path's start to its end, both still present, and carries the joined sequence |
| Merging.MergePlainPair | assembler/src/debruijn/debruijn_graph.cpp:252-258 | merging two edges that are not their own twins gives the first sequence followed by the second without its first k bases |
| Merging.MergeRemovesMiddle | assembler/src/debruijn/debruijn_graph.cpp:245-258 | that merge deletes the vertex between the two edges and its conjugate |
| Overlaps.JoinedIsHeadAndTails | assembler/src/debruijn/debruijn_graph.cpp:294-299 | the joined sequence is the first k bases of the first edge followed by every edge without its first k bases, as the builder appends them |
| Overlaps.JoinedPair | assembler/src/debruijn/debruijn_graph.cpp:295-297 | two edges join as the first followed by the second without its first k bases |
| Overlaps.JoinedLength | assembler/src/debruijn/debruijn_graph.cpp:291-301 | the merged edge's length is the sum of the path's lengths |
| Overlaps.JoinedSuffix | assembler/src/debruijn/debruijn_graph.cpp:291-301 | along a walk, the merged sequence ends with the last edge's last k bases, the k-mer of the merged edge's end |
| Overlaps.JoinedContains | assembler/src/debruijn/debruijn_graph.cpp:291-301 | along a walk, every edge's sequence appears whole in the merged sequence, at the summed length of the edges before it |
| Overlaps.JoinedPairReverseComplement | assembler/src/debruijn/debruijn_graph.cpp:260-279 | the reverse complement of a merged pair is the merge of the twin path |
| Overlaps.SplitRejoins | assembler/src/debruijn/debruijn_graph.cpp:324-326 | s1 = the first position+k bases and s2 = the bases from position overlap by k and rejoin as the original, so the source's assert holds; their lengths are position and the rest |
| Splitting.SplitPiecesRejoin | assembler/src/debruijn/debruijn_graph.cpp:324-326 | both pieces of the split edge are edge sequences that rejoin as its sequence |
| Splitting.SplitVertexStep | assembler/src/debruijn/debruijn_graph.cpp:328-329 | the split vertex pair is fresh, and the first piece can then be added from the edge's start to it |
| Splitting.SplitFirstEdge | assembler/src/debruijn/debruijn_graph.cpp:329 | newEdge1 runs from the edge's start to the fresh vertex, carries s1, and has a fresh twin |
| Splitting.SplitSecondEdge | assembler/src/debruijn/debruijn_graph.cpp:330 | newEdge2 runs from the fresh vertex to the edge's end and carries s2 |
| Splitting.SplitDeleteKeeps | assembler/src/debruijn/debruijn_graph.cpp:335 | the final DeleteEdge keeps both new edges and takes the split edge and its twin |
| Splitting.SplitNewEdges | assembler/src/debruijn/debruijn_graph.cpp:321-337 | after SplitEdge the split edge and its twin are gone, and the two new edges run start to split vertex (carrying s1) and split vertex to end (carrying s2) |
| Splitting.SplitVertexLists | assembler/src/debruijn/debruijn_graph.cpp:328-335 | the split vertex has exactly one edge out (newEdge2) and one in (newEdge1), so it can be compressed |
| Splitting.SplitValid | assembler/src/debruijn/debruijn_graph.cpp:321-337 | SplitEdge keeps the graph well formed |
| Gluing.CopyAddable | assembler/src/debruijn/debruijn_graph.cpp:340 | HiddenAddEdge of a copy of edge2 always meets HiddenAddEdge's demands |
| Gluing.GlueAddedFacts | assembler/src/debruijn/debruijn_graph.cpp:340 | the copy runs parallel to edge2 and carries its sequence; the graph stays well formed and old edges keep their records |
| Gluing.RemoveIfDeadKeeps | assembler/src/debruijn/debruijn_graph.cpp:348-353 | the dead-vertex check removes a listed vertex and its conjugate, or nothing, and keeps every edge |
| Gluing.GlueTailSteps | assembler/src/debruijn/debruijn_graph.cpp:348-353 | the check of end does nothing when end went with start |
| Gluing.GlueFirstDeletedFacts | assembler/src/debruijn/debruijn_graph.cpp:347 | DeleteEdge(edge1) leaves the copy's graph minus edge1 and its twin |
| Gluing.GlueAsWrittenKeepsSecond | assembler/src/debruijn/debruijn_graph.cpp:339-354 | as written, edge2 (unless it is edge1 or edge1's twin) stays next to its copy, with the same ends and the same sequence, although the handlers were told it was deleted |
| Gluing.GlueBothDeletedFacts | assembler/src/debruijn/debruijn_graph.cpp:347 | deleting edge1 and then edge2 removes exactly both edges and their twins |
| Gluing.GlueCopyKept | assembler/src/debruijn/debruijn_graph.cpp:340-347 | both deletions keep the copy |
| Gluing.GlueResultEdges | assembler/src/debruijn/debruijn_graph.cpp:339-354 | corrected: the edges are the old ones minus edge1, edge2 and their twins, plus the copy of edge2 and its twin; the copy runs where edge2 ran |
| Nucleotides.Complement | assembler/src/debruijn/debruijn_graph.cpp:179 | no base is its own complement |
| Nucleotides.ReverseComplementAt | assembler/src/debruijn/debruijn_graph.cpp:179 | base i of !s pairs with base n-1-i of s |
| Nucleotides.ReverseComplementInvolution | assembler/src/debruijn/debruijn_graph.cpp:179-181 | !!s == s, so the twin of the twin carries the edge's own sequence |
| Nucleotides.ReverseComplementInjective | assembler/src/debruijn/debruijn_graph.cpp:179 | distinct sequences have distinct reverse complements |
| Nucleotides.ReverseComplementConcat | assembler/src/debruijn/debruijn_graph.cpp:291-301 | !(a+b) == !b + !a |
| Nucleotides.ReverseComplementSuffix | assembler/src/debruijn/debruijn_graph.cpp:10-11 | the last k bases of !s are the reverse complement of the first k bases of s |
| Nucleotides.ReverseComplementPrefixMatch | assembler/src/debruijn/debruijn_graph.cpp:209-210 | a k-mer is the first k bases of !nucls exactly when its reverse complement is the last k bases of nucls |
| Nucleotides.OddLengthIsNoPalindrome | assembler/src/debruijn/debruijn_graph.cpp:179 | an odd-length sequence is never its own reverse complement, so its edge always gets a separate twin |

## Left out

- I/O and machinery vanish from the model: the `DEBUG` logging and the
  visualization include; handle memory (`new`/`delete`); the applier's
  internals; what the handlers do with an event. Each delivery is recorded as a
  `Notification` in `Dispatcher.log`.
- The files `concurrent_edge_algorithm.hpp`, `pair_info_filler.hpp` and
  `edge_graph_tool.hpp` are not part of this model.
- `debruijn_graph.hpp` is not part of this model. The Vertex and Edge classes
  and the members it declares are modelled from their uses in
  `debruijn_graph.cpp`:
  - `EdgeNucls`, `length`, `IsDeadEnd`, `IsDeadStart`,
    `GetUniqueIncomingEdge`, `GetUniqueOutgoingEdge`;
  - `Vertex::RemoveOutgoingEdge`, modelled as removing the first occurrence,
    and doing nothing for an absent edge.
- GraphStates.DefaultCoverage: the default coverage of the three-argument
  HiddenAddEdge calls (AddMergedEdge, SplitEdge, GlueEdges) is declared in that
  header. The model uses 0; no property depends on it.
- `Sequence`'s packed encoding and its `Subseq` bounds checks are not modelled.
  Sequences are `seq<Nucl>` over the four bases, and `!s` is
  `ReverseComplement`.
- Integer widths are not modelled:
  - `size_t` arithmetic on path indices stays in range wherever the code uses
    it (`path.size() - 1 - i` with `i < path.size()`);
  - the `int` loop counters of IncidentEdges and NeighbouringEdges are
    unbounded `int`s.
- `std::set` iteration order (DeletePath) is pointer order, which the model
  leaves open. DeletePath, DeleteEdgeSet and DeleteVertexSet return the order
  they used as ghost outputs, stated to enumerate the set. MergePath, Merge and
  CompressVertex pass those orders on.
- Graph.DeBruijnGraph.HiddenAddEdge requires one thing the source does not
  check: a sequence that is its own reverse complement must run from v1 to
  conjugate(v1). Such an edge is its own twin, and the graph finds its start
  as the conjugate of its end; any other end would leave the graph
  inconsistent. The same applies to AddEdge and AddEdgeAndTwin.
- Graph.DeBruijnGraph.SplitEdge requires two things beyond the source's
  asserts:
  - neither piece may be its own reverse complement, or the piece would become
    a self-conjugate edge ending at the fresh vertex rather than at the
    conjugate of its start (k = 1, sequence ATG, position 1: s1 = AT);
  - position + k is less than the sequence length, which is the source's
    `position < length(edge)`.
- Graph.DeBruijnGraph.MergePath, Merge and CompressVertex require
  Merging.CanMergePath. The merged sequence must meet HiddenAddEdge's demands,
  and every vertex inside the corrected path must be left without edges once
  the path's pairs are gone, which is what DeleteVertex asserts. The source
  asserts only that the corrected path is non-empty and, in Merge, that the
  edges meet.
- Graph.DeBruijnGraph.DeleteAllOutgoingAsWritten requires the list to hold no
  conjugate pair. Otherwise the source calls DeleteEdge on an edge already
  freed as a twin, which is undefined behaviour (see Findings).
- Graph.DeBruijnGraph.ForceDeleteVertex is built on the corrected
  DeleteAllOutgoing. When v or conjugate(v) carries a hairpin that is not its
  own twin, the source hands DeleteEdge a freed edge and its outcome is
  undefined; the state and log stated are the intended ones. On every other
  graph the two versions agree (Handles.FirstOfPairsOfPairFree).
- Graph.DeBruijnGraph.AreLinkable requires an edge at v1 or conjugate(v1): the
  source computes VertexNucls(v1) unconditionally and reaches its
  `assert(false)` otherwise.
- Graph.DeBruijnGraph.DeleteIfDead skips a vertex that is no longer present. In
  GlueEdges, end can be conjugate(start) and go with it; the source then
  queries a freed vertex.
- Graph.DeBruijnGraph.VertexNucls requires that v or its conjugate has an
  outgoing edge. The source reaches `assert(false)` otherwise and returns
  nothing.

## Findings

| source | as written | input that shows it | evidently intended | confidence | as-written member | corrected member |
|---|---|---|---|---|---|---|
| assembler/src/debruijn/debruijn_graph.cpp:53-64 | the second loop of IncidentEdges looks for `*it`, the edge leaving conjugate(v), among the results, but appends `conjugate(*it)`; NeighbouringEdges (lines 72-73) calls it and inherits both defects | a loop e from v to v with a distinct twin c: c leaves conjugate(v), c is not listed, so conjugate(c) = e is appended again; twins e, c both from conjugate(v) to v: conjugate(v) lists e and c, c is appended for e, then c is found and e is dropped | every edge that starts or ends at v listed exactly once | medium, not executed | Graph.DeBruijnGraph.IncidentEdges, Incidence.IncidentScanLoopTwice, Incidence.IncidentScanHairpinLoses, Graph.DeBruijnGraph.NeighbouringEdges, Incidence.NeighbouringLoopTwice | Graph.DeBruijnGraph.IncidentEdgesCorrected, Graph.DeBruijnGraph.NeighbouringEdgesCorrected |
| assembler/src/debruijn/debruijn_graph.cpp:23-28 | DeleteAllOutgoing calls DeleteEdge on every edge of a copy of v's list, and DeleteEdge also deletes the twin | a hairpin e from v to conjugate(v) that is not its own twin: its twin also leaves v, so the copy holds both, and the second DeleteEdge works on an edge already freed | every edge leaving v deleted once with its twin, an edge already taken as a twin skipped | medium, not executed | Graph.DeBruijnGraph.DeleteAllOutgoingAsWritten, GraphStates.HairpinTwinListed | Graph.DeBruijnGraph.DeleteAllOutgoing |
| assembler/src/debruijn/debruijn_graph.cpp:339-354 | GlueEdges tells the handlers that edge1 and edge2 are deleted but deletes only edge1, whose DeleteEdge tells them of edge1 a second time | any two distinct edges edge1, edge2 with edge2 not edge1's twin: afterwards edge2 and its copy both run from edge2's start to its end with its sequence | edge1 and edge2 both replaced by the copy of edge2, each deletion told once | medium, not executed | Graph.DeBruijnGraph.GlueEdges, Gluing.GlueAsWrittenKeepsSecond | Graph.DeBruijnGraph.GlueEdgesCorrected, Gluing.GlueResultEdges |
