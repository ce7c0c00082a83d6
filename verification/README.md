# Arch-canvas core: a Dafny model

This project models the parts of arch-canvas whose correctness spans many calls, and proves what
they are for. It holds one module per file.

| Part | Modules | Main results |
|---|---|---|
| Scene sync | `Scenes`, `Merge`, `Reconcile`, `Diff`, `Refinement`, `StructuralDiff` | After every change of every run the server holds exactly the editor's live elements; when a batch may be reordered, split or sent again, each as an if-and-only-if |
| Diagram compiler | `Ir`, `SceneSemantics`, `Compile`, `Decompile`, `Containment`, `CompiledScenes`, `RoundTrip` | Decompiling a compiled document gives it back; inferred containment is a forest exactly without circles of boxes; exactly which scenes give a document that passes the referential checks |
| Geometry | `Segments`, `Metrics` | The segment test is exact; the two counters count pairs |
| Backups | `BackupText`, `Archives`, `BackupCreate`, `BackupRestore`, `BackupChain`, `BackupConservation`, `BackupObjects`, `BackupRoundTrip` | A restored chain holds exactly the rows of the last capture if and only if every manifest time is a clean cut; exactly when a restore applies the good entries and nothing more; the last manifest decides the chain |
| Presence | `Presence`, `PresenceRuns`, `PresenceTraces`, `PresenceClients` | Never stuck; never doubled exactly when `connect()` is called idle; every cursor goes out, or a later one, within a window while the socket is open; who is shown, exactly, from the frames that came; remotes promptly swept; quiet for ever after `close()`, over every interleaving, and for the object itself |
| Rate limiter | `RateLimit` | At most `2 * limit - 1` hits in any window-long interval, and the bound is reached |
| Comment stripper | `StripComments` | Moves nothing, leaves no comment, idempotent on every text |
| Comment threads | `CommentThreads` | Every comment once, exactly when roots come first, also where ids repeat |

Loops and classes of the source are methods and classes here. Each is proved equal to a function
of its inputs or of the old state, and the theorems are lemmas about that function. `OrderedMaps`
is JavaScript's `Map`, with its insertion order; `Lists` says what keeping an order means.

Beside the theorems that span calls stand readings of the single operations: what each says about its
input in the input's own terms, without the functions that compute it (`Diff.ReportsTheElement`,
`Compile.ItemsAreDrawnInTurn`, `PresenceTraces.ShownExactlyWhenHeard` and so on).

Lemmas on which Dafny would start an induction of its own carry `{:induction false}`: each proof is
the one written down.

Outside inputs are parameters: the layout (`positioned`), random numbers and time (`Draws`), the
clock and every browser event, the checksum (`Sha`, injective where a lemma says so), database
rows and object stores. `CompiledScenes.SampleMeetsTheDemands` shows that the demands on documents
and layouts can be met.

## Where the code and its own documentation differ

The model follows the code. For each difference one lemma says exactly when it shows, and another
gives an input.

- A delete is looked up in the scene before its batch, so a delete of an id the same batch creates
  is dropped (`Reconcile.DeleteOfNewElementIsLost`). This decides when batches may be cut
  (`Reconcile.SplitsExactlyWhenLateDeletesLose`) or sent again
  (`Reconcile.RetryIsHarmlessExactlyWithoutLateDeletes`).
- `computeDiff` lists "an element removed from `next`" as a delete. That delete carries the version
  the server already holds and loses the tie, so the element stays on the server
  (`Refinement.ChangeGetsThroughExactlyWhenNothingLiveVanishes`,
  `Refinement.VanishedElementStaysOnTheServer`).
- "At most `limit` per window" fails for a limit below one, because the first hit of a window is
  always allowed (`RateLimit.LimitIsKeptExactlyWhenPositive`, `RateLimit.FirstHitIsAllowedAnyway`).
- Restoring a chain promises to apply nothing from an offending entry onward. A table that the
  manifest names but whose copy is not listed slips through verification; the rows copied before it
  stay (`BackupChain.RestoreAppliesOnlyGoodEntriesExactlyWhenItStopsClean`,
  `BackupChain.NamedButMissingCopyStopsHalfWay`).
- The manifest's `createdAt` is taken after the capture. Rows inserted in between are lost, rows
  dated later but captured come twice
  (`BackupConservation.RowsComeBackExactlyWithCleanCuts`,
  `BackupConservation.RowBetweenCaptureAndManifestIsLost`,
  `BackupConservation.RowDatedAfterItsManifestComesTwice`).
- The keys of an increment's objects are read off the printed dump. A key that COPY escapes is looked
  up in its escaped form (`BackupRoundTrip.TakenExactlyWhenPrinted`,
  `BackupRoundTrip.EscapedKeyIsNotTaken`).
- Where boxes lie in each other in a circle, some of them become each other's containers as soon as
  the others are off the page (`Containment.ForestExactlyWithoutCircles`); two boxes in the same
  place do (`Containment.EqualBoxesContainEachOther`).
- An arrow bound to a container, or to a shape without a label, decompiles to a document that fails
  the referential checks (`Containment.SoundExactlyWhenArrowsJoinLeaves`,
  `RoundTrip.ArrowToAContainerDangles`).
- An empty container comes back from the decompiler as a node
  (`RoundTrip.ComesBackWholeExactlyWithoutEmptyContainers`,
  `RoundTrip.EmptyContainerComesBackAsANode`).
- A `connect()` while something is under way doubles the session, and an open socket that nobody
  holds stays behind (`PresenceRuns.NeverDoubledExactlyWhenConnectingIdle`,
  `PresenceRuns.ConnectingTwiceDoubles`). When the second ticket is refused, a pending cursor is lost
  although the socket stays open (`PresenceRuns.NothingIsLostExactlyInLossFreeRuns`,
  `PresenceRuns.RefusedTicketLosesACursor`).
- The comment stripper keeps "every other character at its original index", but a block comment
  that never ends makes the text two characters longer (`StripComments.StrippingMovesNothing`,
  `StripComments.UnclosedCommentGrows`).
- A reply that stands before its root in the list is dropped
  (`CommentThreads.EveryCommentOnceExactlyWhenRootsComeFirst`,
  `CommentThreads.ReplyBeforeItsRootIsLost`).

## Model

| member | source | states |
|---|---|---|
| Scenes.IndexKeys | packages/diagram-domain/src/mergeScene.ts:31-33 | the index of an element array has exactly the ids of the array, each with one of its elements |
| Scenes.IndexOfUnique | packages/diagram-domain/src/mergeScene.ts:31-33 | with unique ids the index lists the array itself, in the same order |
| Scenes.IndexOfValues | packages/diagram-domain/src/mergeScene.ts:31-33 | indexing the values of an index gives the index back, order included |
| Scenes.LastElementCounts | packages/diagram-domain/src/mergeScene.ts:31-33 | of several elements with one id the last counts |
| Scenes.FirstPlaceCounts | packages/diagram-domain/src/mergeScene.ts:31-33 | ids are listed in the order in which they first occur |
| Merge.MergeScene | packages/diagram-domain/src/mergeScene.ts:41-55 | the merge loop ends with the fold of all offers over the local index; the lemmas below say which element that keeps |
| Merge.MergeKeepsTheFirstBest | packages/diagram-domain/src/mergeScene.ts:35-55 | an id is present after the merge exactly when either side had it, and holds the first maximum under (version up, nonce down), the local element counting first |
| Merge.FirstBestIsUnique | packages/diagram-domain/src/mergeScene.ts:35-38 | there is only one first maximum, so the join is fully determined |
| Merge.MergeKeepsOrder | packages/diagram-domain/src/mergeScene.ts:45-54 | local ids keep their order and come before new ones |
| Merge.NothingWins | packages/diagram-domain/src/mergeScene.ts:45-52 | a scene that nothing on offer beats is left as it is |
| Merge.NewestWins | packages/diagram-domain/src/mergeScene.ts:35-55 | of all that claim an id, the local element first, the merge keeps the first with the highest version and, at that version, the lowest nonce; an id nobody claims has none |
| Reconcile.ReconcileOperation | packages/diagram-domain/src/reconcile.ts:26-51 | the returned scene is the join of the old scene with what the deltas offer, and `applied` keeps, in order, the deltas that offered something |
| Reconcile.ReconcileKeepsTheFirstBest | packages/diagram-domain/src/reconcile.ts:30-50 | after a batch the ids are the old ones plus those an upsert creates, and each holds the first maximum of its old element and all offers |
| Reconcile.DeleteAlone | packages/diagram-domain/src/reconcile.ts:38-46 | a delete turns the element it finds into a tombstone with the delta's version and nonce and everything else kept, unless that element is at least as new; one that finds nothing changes nothing |
| Reconcile.UpsertAlone | packages/diagram-domain/src/reconcile.ts:31-36 | an upsert brings its element under the element's own id, unless the one there is at least as new |
| Reconcile.AppliedInOrder | packages/diagram-domain/src/reconcile.ts:28-47 | the applied deltas are, in batch order, the upserts that carry an element and the deletes of ids the scene has |
| Reconcile.UntargetedStays | packages/diagram-domain/src/reconcile.ts:30-50 | an id that no applied delta targets keeps its element |
| Reconcile.Convergence | packages/diagram-domain/src/reconcile.ts:30-50 | two batches with the same deltas, in any order and repetition, give the same id-to-element map unless two different elements tie for first place |
| Reconcile.ConvergenceWhereKeysDecide | packages/diagram-domain/src/reconcile.ts:30-50 | in particular they give the same map where, among what the batch offers, id, version and nonce determine the element |
| Reconcile.ConvergesExactlyWithoutTopTies | packages/diagram-domain/src/reconcile.ts:30-50 | every permutation of a batch gives the same map if and only if there is no tie for first place |
| Reconcile.SplittingABatch | packages/diagram-domain/src/reconcile.ts:22-51 | applying `d1` then `d2` reads the same as applying `d1 + d2` (order, keys, deleted flags, live content) when no delete of `d2` is for an id that only `d1` created |
| Reconcile.SplitsExactlyWhenNothingNewIsDeleted | packages/diagram-domain/src/reconcile.ts:38-39 | a batch can be cut after `d1` for every later part that deletes only ids of a given set, if and only if none of these ids is new in `d1` |
| Reconcile.SplitsExactlyWhenLateDeletesLose | packages/diagram-domain/src/reconcile.ts:22-51 | as long as deletes and upserts of an id keep their keys apart, applying `d1` then `d2` reads the same as applying `d1 + d2` if and only if every delete in `d2` of an id that `d1` brings in is matched by an upsert it does not outrank |
| Reconcile.DeleteOfNewElementIsLost | packages/diagram-domain/src/reconcile.ts:38-39 | the failing case: for every id a batch creates there is a delete that leaves a tombstone in a batch of its own, and changes nothing in the same batch |
| Reconcile.RetryIsHarmlessExactlyWithoutLateDeletes | packages/diagram-domain/src/reconcile.ts:26-51 | applying a batch a second time changes nothing, tombstones included, if and only if no delete outranks every upsert of an id the batch itself creates |
| Diff.ComputeDiff | packages/editor-adapter/src/computeDiff.ts:19-73 | the two loops emit the delta each element of the next scene calls for, then deletes for what vanished, in these orders |
| Diff.DeltasAt | packages/editor-adapter/src/computeDiff.ts:23-59 | the deltas aimed at an id of the next scene are exactly the one its element calls for |
| Diff.DeltasAtVanished | packages/editor-adapter/src/computeDiff.ts:61-70 | the only delta for an id that is gone is a delete carrying the version and nonce last seen, and only if it was live |
| Diff.ReportsTheElement | packages/editor-adapter/src/computeDiff.ts:23-59 | a live element is reported whole exactly if its id is new or known under another version or nonce, a deleted one by a delete exactly if it was live; the delta carries the element's id, version and nonce |
| Diff.ReportsTheVanished | packages/editor-adapter/src/computeDiff.ts:61-70 | an element that is gone is reported by a delete as last seen exactly if it was live |
| Diff.ReportsInOrder | packages/editor-adapter/src/computeDiff.ts:19-73 | one delta at most per id, the next scene's elements first, in its order, then what is gone, in the old order |
| Diff.EditorSurface.OnChange | packages/editor-adapter/src/EditorSurface.tsx:355-361 | the change handler emits the deltas against the remembered scene and moves that scene only if there are any |
| Refinement.ChangeKeepsSync | packages/editor-adapter/src/computeDiff.ts:19-73 | one change with growing versions and kept tombstones keeps editor, remembered scene and server in the sync relation, also when it emits nothing |
| Refinement.ServerFollowsEditor | packages/editor-adapter/src/computeDiff.ts:19-73 | over every run of such changes the server, fed with each emitted batch, holds exactly the editor's live elements after every change |
| Refinement.ChangeGetsThroughExactlyWhenNothingLiveVanishes | packages/editor-adapter/src/computeDiff.ts:61-70 | without kept tombstones a change gets through if and only if no live element vanishes from the editor's scene |
| Refinement.VanishedElementStaysOnTheServer | packages/editor-adapter/src/computeDiff.ts:61-70 | the failing case: the only live element vanishes, a delete is emitted, and the server keeps the element |
| Refinement.SilentExactlyWhenNothingShows | packages/editor-adapter/src/computeDiff.ts:19-73 | a change emits no delta if and only if the live elements are the same before and after |
| StructuralDiff.Diff | packages/diagram-domain/src/structuralDiff.ts:43-84 | the report lists, for each kind of change and in the order of all ids, the ids that underwent it |
| StructuralDiff.ListedUnderItsChangeOnly | packages/diagram-domain/src/structuralDiff.ts:57-81 | an id is in a list exactly when it underwent that change |
| StructuralDiff.ReportSaysWhatChanged | packages/diagram-domain/src/structuralDiff.ts:55-84 | read off the live elements of the two scenes: added is shown only later, removed only earlier, modified in both with any field but place, version, nonce and update time different, moved in both with just the place different |
| StructuralDiff.ReportInOrder | packages/diagram-domain/src/structuralDiff.ts:50-84 | each list follows the order of the earlier scene, then of the later one |
| StructuralDiff.ListsAreDisjoint | packages/diagram-domain/src/structuralDiff.ts:57-81 | the four lists are pairwise disjoint |
| StructuralDiff.ListsNameAnIdOnce | packages/diagram-domain/src/structuralDiff.ts:55-81 | no list names an id twice |
| StructuralDiff.EmptyExactlyWhenNothingShows | packages/diagram-domain/src/structuralDiff.ts:43-84 | the report is empty if and only if live content and position agree under every id |
| StructuralDiff.SwapReversesTheReport | packages/diagram-domain/src/structuralDiff.ts:60-80 | swapping the scenes swaps added with removed and keeps the sets of moved and modified |
| StructuralDiff.OnlyAppliedDeltasShow | packages/diagram-domain/src/reconcile.ts:30-50 | every id in the diff between a scene and its reconciled result is the target of an applied delta |
| Segments.OnSegmentIsCovered | packages/diagram-ir/src/metrics.ts:121-148 | zero orientation plus the bounding-box test hold exactly for the points of the closed segment, zero length included |
| Segments.CrossingMeets | packages/diagram-ir/src/metrics.ts:157 | two orientation changes give a shared point, found by Cramer's rule |
| Segments.IntersectExactlyWhenTheyMeet | packages/diagram-ir/src/metrics.ts:151-165 | the test says yes if and only if the closed segments share a point, also when collinear, touching or of zero length |
| Metrics.CountOverlaps | packages/diagram-ir/src/metrics.ts:83-96 | the count is the number of unordered pairs of positions whose rectangles overlap and are not nested |
| Metrics.CountCrossings | packages/diagram-ir/src/metrics.ts:179-193 | the count is the number of unordered pairs of positions whose arrows cross |
| Metrics.OverlapMeansCommonPoint | packages/diagram-ir/src/metrics.ts:42-44 | two solid boxes overlap if and only if some point is inside both |
| Metrics.ContainsMeansIncluded | packages/diagram-ir/src/metrics.ts:46-53 | one solid box fully contains another if and only if every inner point of it is inside |
| Metrics.NestingIsProperInclusion | packages/diagram-ir/src/metrics.ts:75-81 | legitimate nesting is proper inclusion: the area test rules out exactly the equal boxes |
| Metrics.OverlappingMeans | packages/diagram-ir/src/metrics.ts:75-96 | two solid boxes are counted as overlapping exactly if they share an inner point and neither lies properly in the other |
| Metrics.CrossesMeans | packages/diagram-ir/src/metrics.ts:108-193 | two arrows cross exactly if no id is an end of both and some point lies on both straight lines from an arrow's place to its last point; earlier points do not matter |
| Metrics.DiagonalsCrossOnce | packages/diagram-ir/src/metrics.ts:108-193 | the two diagonals of a square count as one crossing |
| Ir.CheckReferentialIntegrity | packages/diagram-ir/src/schema.ts:125-158 | the issues are exactly the dangling references, each once, edges before children, in document order |
| SceneSemantics.ExtractSceneSemantics | packages/diagram-domain/src/sceneSemantics.ts:95-127 | one element per live scene element, and one edge per live arrow bound to live elements at both ends, in scene order |
| SceneSemantics.EdgeArrowsAreEdges | packages/diagram-domain/src/sceneSemantics.ts:114-118 | the arrows that make edges are exactly the live ones with both bindings resolved |
| SceneSemantics.EdgesJoinLiveElements | packages/diagram-domain/src/sceneSemantics.ts:63-71 | an arrow makes an edge exactly if both its ends are bound to non-empty ids of live elements |
| SceneSemantics.LabelIsOwnOrFirstBound | packages/diagram-domain/src/sceneSemantics.ts:48-56 | a text is its own label, anything else has the first text bound to it, or none |
| Decompile.InferDirectParents | packages/diagram-ir/src/decompile.ts:105-117 | the nested loops give every box its best parent; `Containment.ParentOfBox` says what best means |
| Decompile.LiveArrows | packages/diagram-ir/src/decompile.ts:258-268 | the decompiler's own filter of the raw scene yields, position by position, the arrows the semantic edges were made from, deleted and half-bound arrows included |
| Decompile.ChildrenByParent | packages/diagram-ir/src/decompile.ts:223-228 | every parent's list has the boxes whose direct parent it is, in order |
| Decompile.DecompileScene | packages/diagram-ir/src/decompile.ts:203-294 | the loops compute the document the containment and round-trip lemmas speak of, for every scene and metadata |
| Decompile.BoxesInTurn | packages/diagram-ir/src/decompile.ts:210-218 | the boxes are the live rectangles with a non-empty label, in scene order, each in its place |
| Decompile.FirstRowCounts | packages/diagram-ir/src/decompile.ts:119-128 | of several metadata rows for an element the first counts; without one, or without an object in it, there are no fields |
| Decompile.OnlyTextsAreRead | packages/diagram-ir/src/decompile.ts:130-136 | component keys and protocols are read exactly if they are texts |
| Decompile.ModeIsTheOneNamed | packages/diagram-ir/src/decompile.ts:164-171 | an edge is sync, async or data exactly if its row says so, otherwise a dependency |
| Decompile.SemanticsAreTheKnownTexts | packages/diagram-ir/src/decompile.ts:138-149 | semantics hold exactly the texts under the five known keys, and are absent if there is none |
| Decompile.EdgesAreReadOffTheirArrows | packages/diagram-ir/src/decompile.ts:258-285 | for every scene the k-th edge has the ends, direction, label and recorded mode and protocol of the k-th arrow that makes one |
| Decompile.EnclosesMeans | packages/diagram-ir/src/decompile.ts:85-92 | a box encloses another exactly if no point of that one lies more than a unit outside |
| Containment.BestParentIsSmallest | packages/diagram-ir/src/decompile.ts:108-113 | there is a best parent whenever any other box contains the child, and it has minimal area among those that do |
| Containment.ParentOfBox | packages/diagram-ir/src/decompile.ts:105-117 | the inferred parent of a box contains it and no containing box is smaller; no parent means no box contains it |
| Containment.ParentIsTheFirstSmallestAround | packages/diagram-ir/src/decompile.ts:105-117 | read off the page, the inferred parent is the first of the boxes of least width times height around the box |
| Containment.ForestExactlyWithoutCircles | packages/diagram-ir/src/decompile.ts:84-117 | every list of boxes drawn from some boxes with unique ids has inferred parents that form a forest, if and only if no boxes among them contain each other in a circle |
| Containment.ContainmentIsAForest | packages/diagram-ir/src/decompile.ts:98-117 | strictly larger enclosing boxes are enough for a forest: no walk up the inferred parents ever returns |
| Containment.EqualBoxesContainEachOther | packages/diagram-ir/src/decompile.ts:84-92 | the smallest circle: two boxes in one place become each other's parent |
| Containment.NodesAndContainersPartition | packages/diagram-ir/src/decompile.ts:230-250 | every live labelled rectangle is a node or a container and none is both |
| Containment.ContainersListTheirOwn | packages/diagram-ir/src/decompile.ts:223-237 | a container lists, without repetition, exactly the boxes whose inferred parent it is, and each of them is in the document |
| Containment.ChildrenInSceneOrder | packages/diagram-ir/src/decompile.ts:223-236 | a container lists its children in scene order |
| Containment.ParentsByGeometry | packages/diagram-ir/src/decompile.ts:105-117 | a box is some parent exactly when it is the first of the smallest boxes around a box whose parent is kept |
| Containment.SoundExactlyWhenArrowsJoinLeaves | packages/diagram-ir/src/schema.ts:125-158 | a scene decompiles to a document that passes the referential checks if and only if each live arrow with both ends bound joins two labelled rectangles that are nowhere the first smallest around another |
| Compile.CompileIr | packages/diagram-ir/src/compile.ts:340-392 | one issue per node with an unknown component key and no scene, or else rectangles with labels for containers, then nodes, then arrows, skipping what has no position |
| Compile.CompiledScenesAreLinked | packages/diagram-ir/src/compile.ts:227-297 | in every compiled scene labels and what they label name each other: the element right before each text lists it and is named by it as its container, and nothing lists a label that is not there |
| Compile.IssuesAreTheUnresolved | packages/diagram-ir/src/compile.ts:347-358 | compilation fails exactly when some node's component key is not in the library |
| Compile.EdgeIdsAreDistinct | packages/diagram-ir/src/compile.ts:258 | no two arrows get the same generated id |
| Compile.EdgeIdIsItsPosition | packages/diagram-ir/src/compile.ts:258 | an arrow's id is "edge-" and the edge's position in decimal, without leading zeros |
| Compile.LastEntryCounts | packages/diagram-ir/src/compile.ts:361 | where the layout repeats an id its last entry counts, and only placed ids have one |
| Compile.LastItemCounts | packages/diagram-ir/src/compile.ts:345 | where the library repeats a key its last item counts |
| Compile.IssuesInOrder | packages/diagram-ir/src/compile.ts:347-354 | the issues name, in node order, exactly the nodes whose key no library item has, each with that key |
| Compile.NodeColor | packages/diagram-ir/src/compile.ts:380-384 | a node is drawn in the colour of the last library item with its key, or in the default one |
| Compile.ItemsAreDrawnInTurn | packages/diagram-ir/src/compile.ts:227-243 | nodes and containers are drawn in order, each as a rectangle with the place and size of its layout entry and a label of the same place right behind; unplaced ones are skipped |
| Compile.EdgesAreDrawnInTurn | packages/diagram-ir/src/compile.ts:245-297 | edges are drawn in order, each as an arrow from the middle of one box to the middle of the other, bound to both ends, with a head at its start if it goes both ways, and its label around the middle between; edges without a place are skipped |
| Compile.SceneInThreeParts | packages/diagram-ir/src/compile.ts:366-390 | containers, in the default colour, then nodes, then edges |
| CompiledScenes.LabelOfItem | packages/diagram-domain/src/sceneSemantics.ts:48-56 | in a compiled scene the label resolved for a rectangle is its own item's |
| CompiledScenes.BoxesAreTheItems | packages/diagram-ir/src/decompile.ts:210-218 | the boxes read off a compiled scene are those of its containers and nodes, in order |
| CompiledScenes.SampleMeetsTheDemands | packages/diagram-ir/src/compile.ts:340-392 | the demands on documents and layouts are met by a node drawn inside a container |
| RoundTrip.InferredMatchesTree | packages/diagram-ir/src/decompile.ts:105-117 | under a fitting layout the inferred parent of a box is its container in the document |
| RoundTrip.CompileThenDecompile | packages/diagram-ir/src/decompile.ts:203-294 | decompiling a compiled document gives back its nodes (id, label, order), its containers with the same children, and its edges (from, to, direction, label) in order, and the result passes the referential checks |
| RoundTrip.ComesBackWholeExactlyWithoutEmptyContainers | packages/diagram-ir/src/decompile.ts:230-250 | nodes and containers all come back as what they were if and only if no container is empty |
| RoundTrip.NothingIsLostWithMetadata | packages/diagram-ir/src/decompile.ts:119-179 | with any metadata whose rows say what the document does, and no empty container, nodes and edges come back equal |
| RoundTrip.RecordedDocumentComesBack | packages/diagram-ir/src/decompile.ts:119-285 | with a row written for every node and edge, every edge comes back to the letter and so does every node, save that semantics without a text are none; empty containers come back as further nodes |
| RoundTrip.CompiledDocumentComesBack | packages/diagram-ir/src/compile.ts:340-392 | the round trip from the library and the layout list: what `CompileIr` makes of a document decompiles to its nodes, edges and non-empty containers |
| RoundTrip.EmptyContainerComesBackAsANode | packages/diagram-ir/src/decompile.ts:200-201 | a document with one empty container comes back as one node |
| RoundTrip.ArrowToAContainerDangles | packages/diagram-ir/src/decompile.ts:270-285 | an arrow from a node to the container around it comes back as an edge that dangles |
| BackupText.PathsComeBack | infra/backup/src/restore.ts:28-34 | an object's path parses back to its bucket and key if and only if the bucket has no slash and the key is one non-empty line |
| BackupText.EscapeIsClean | infra/backup/src/incremental.ts:179-189 | COPY text never has a control character inside a column, and is the column itself if and only if nothing in it needs an escape |
| BackupText.ColumnsReadBack | infra/backup/src/incremental.ts:137-178 | what COPY prints for a column reads back as that column |
| BackupText.SplitOfJoin | infra/backup/src/incremental.ts:182-184 | splitting at a mark undoes joining with it when no part holds the mark |
| BackupText.ExtractSceneJsonKeys | infra/backup/src/incremental.ts:180-189 | the keys are the distinct non-empty sixth columns of the text, in the order of their first mention |
| BackupText.KeysOfADump | infra/backup/src/incremental.ts:179-189 | from the text of a snapshot dump come exactly the printed keys of its rows |
| Archives.VerifyBackup | infra/backup/src/verify.ts:20-45 | exactly the listed files that are not there are reported as missing and exactly those with another checksum as wrong, and none is if and only if the archive is intact |
| Archives.MismatchesInOrder | infra/backup/src/verify.ts:29-42 | one mismatch at most per listed file, in list order |
| Archives.ManifestPinsFiles | infra/backup/src/verify.ts:29-44 | with an injective checksum two verified archives with the same manifest agree on every listed file |
| Archives.PackedVerifies | infra/backup/src/create.ts:30-33 | what the packer writes passes verification if no two different files share a path |
| BackupCreate.CreateBackup | infra/backup/src/create.ts:25-59 | a full backup packs the dump and every object of the listed buckets |
| BackupCreate.BucketItemsMembers | infra/backup/src/create.ts:39-45 | the files of the buckets are exactly the objects in them, each under its own path |
| BackupCreate.ListedInOrder | infra/backup/src/create.ts:39-45 | a bucket's objects are listed in the order of the store |
| BackupCreate.FullIsConsistent | infra/backup/src/create.ts:37-45 | no two files of a full backup share a path when bucket names have no slash |
| BackupCreate.CreateIncrementalBackup | infra/backup/src/incremental.ts:217-266 | refuses a base that does not verify; fails exactly when a mentioned object is not stored; else packs the rows since the base, the mentioned objects and the link to the base's manifest |
| BackupCreate.IncrementIsConsistent | infra/backup/src/incremental.ts:237-249 | no two files of an increment share a path |
| BackupRestore.Restorer.RestoreBackup | infra/backup/src/restore.ts:43-69 | a backup that does not verify touches nothing; else the dump replaces the tables and every listed object is put |
| BackupRestore.Restorer.RestoreIncrementalChain | infra/backup/src/incremental.ts:296-370 | target and error after a chain are those of the replay: link by link, each checked against the manifest before it |
| BackupChain.LinkGoesThroughExactlyWhenComplete | infra/backup/src/incremental.ts:346-366 | a link that holds is applied without error if and only if the copy of every table it names is in the archive |
| BackupChain.HalfALinkIsHarmlessExactlyWhenEmpty | infra/backup/src/incremental.ts:346-354 | a link that holds but lacks a copy leaves the target alone if and only if every table copied before the first missing copy has no row |
| BackupChain.RestoreStopsAtTheFirstBadLink | infra/backup/src/incremental.ts:325-369 | a replay fails exactly when some link does not hold or lacks a copy; its target is that of the good links before it if and only if that link does not hold or brings no row before its first missing copy |
| BackupChain.RestoreAppliesOnlyGoodEntriesExactlyWhenItStopsClean | infra/backup/src/incremental.ts:283-370 | for every chain: the restore succeeds exactly when all entries are good, and applies the good entries and nothing from the offending one onward, if and only if it stops clean |
| BackupChain.NamedButMissingCopyStopsHalfWay | infra/backup/src/incremental.ts:346-354 | the promise to apply nothing of an offending entry fails for a named table whose copy is not listed |
| BackupChain.AcceptedIsLinked | infra/backup/src/incremental.ts:296-369 | an accepted chain starts with a full backup, every entry verifies, and each names the manifest before it |
| BackupChain.LastManifestDecides | infra/backup/src/incremental.ts:191-194 | with an injective checksum two linked chains that end in the same manifest have the same length and the same manifests |
| BackupChain.LastManifestDecidesTheRestore | infra/backup/src/incremental.ts:296-370 | two accepted chains that end in the same manifest restore the same rows and objects, if what a restore reads is listed |
| BackupConservation.RowsComeBackExactlyWithCleanCuts | infra/backup/src/incremental.ts:252 | over any number of captures of a growing table of distinct rows, full dump plus increments hold each row once if and only if every manifest time separates the rows captured from those added later |
| BackupConservation.RowBetweenCaptureAndManifestIsLost | infra/backup/src/incremental.ts:252 | a row inserted between the capture and the manifest's time is in no archive |
| BackupConservation.RowDatedAfterItsManifestComesTwice | infra/backup/src/incremental.ts:252 | a captured row dated after its manifest is in two archives |
| BackupObjects.ParsedPath | infra/backup/src/restore.ts:28-34 | a path parses to an object exactly when it is that object's own path and both parts are plain |
| BackupRoundTrip.FullComesBack | infra/backup/src/restore.ts:43-69 | restoring a full backup gives its tables, and of its buckets exactly the objects with one-line keys, with their bytes |
| BackupRoundTrip.IncrementLinks | infra/backup/src/incremental.ts:335-341 | an increment made on top of a base passes every check of the restore against that base |
| BackupRoundTrip.IncrementRowsComeBack | infra/backup/src/incremental.ts:346-354 | applying an increment appends to each table exactly the rows it captured |
| BackupRoundTrip.IncrementObjectsComeBack | infra/backup/src/incremental.ts:356-366 | applying an increment puts exactly the objects its snapshot rows mention, with their bytes, and leaves the others |
| BackupRoundTrip.ChainConservesRowsExactlyWithCleanCuts | infra/backup/src/incremental.ts:217-370 | backing up, adding any number of increments and restoring gives each table the rows of the last capture, each once, if and only if the cuts are clean |
| BackupRoundTrip.TakenExactlyWhenPrinted | infra/backup/src/incremental.ts:179-189 | an increment takes an object if and only if its key is one line and the printed form of some dumped snapshot's key |
| BackupRoundTrip.EscapedKeyIsNotTaken | infra/backup/src/incremental.ts:245-249 | a lone snapshot's own object is taken if and only if COPY prints its key as it is and a path can hold it |
| BackupRoundTrip.RestoredObjectsAreThoseBrought | infra/backup/src/incremental.ts:296-370 | for every chain made, and whatever the keys: the restored store holds under every id exactly the bytes of the last archive that has it, and nothing else |
| BackupRoundTrip.BroughtExactlyWhenItComes | infra/backup/src/incremental.ts:245-249 | an object is restored if and only if the full backup has it or some increment takes it |
| BackupRoundTrip.RestoredSnapshotsHaveTheirObjects | infra/backup/src/incremental.ts:245-249 | whatever the cuts, when snapshots refer to stored objects by plain keys and the store only grows, every restored snapshot has its object, with the bytes it has in the store |
| BackupRoundTrip.ChainConservesEverything | infra/backup/src/incremental.ts:296-370 | with clean cuts the restored tables equal the last capture's, and the restored objects are exactly those the archives have, whatever the keys |
| PresenceClients.PresenceStore.PruneRemotes | apps/web/src/presence/presenceStore.ts:65-72 | keeps exactly the remotes last seen at or after the limit, also when it returns the old state |
| PresenceClients.PresenceStore.UpsertRemote | apps/web/src/presence/presenceStore.ts:57-58 | sets one sender's entry and keeps the others |
| PresenceClients.PresenceStore.DropRemote | apps/web/src/presence/presenceStore.ts:59-64 | removes one sender's entry and keeps the others |
| PresenceClients.PresenceClient.Connect | apps/web/src/presence/presenceClient.ts:129-133 | the whole new state is the machine's connect step |
| PresenceClients.PresenceClient.Close | apps/web/src/presence/presenceClient.ts:136-144 | the whole new state is the machine's close step |
| PresenceClients.PresenceClient.SendCursor | apps/web/src/presence/presenceClient.ts:151-163 | the new state is the machine's cursor step; a running throttle timer is kept |
| PresenceClients.PresenceClient.OnThrottle | apps/web/src/presence/presenceClient.ts:157-162 | the new state is the machine's throttle step |
| PresenceClients.PresenceClient.OnReconnect | apps/web/src/presence/presenceClient.ts:197-202 | the new state is the machine's reconnect step |
| PresenceClients.PresenceClient.OnSweep | apps/web/src/presence/presenceClient.ts:207-227 | the new state is the machine's sweep step, with the timer set again |
| PresenceClients.PresenceClient.OnTicket | apps/web/src/presence/presenceClient.ts:252-279 | the new state is the machine's step for a refused or a granted ticket |
| PresenceClients.PresenceClient.OnOpen | apps/web/src/presence/presenceClient.ts:281-292 | the new state is the machine's open step |
| PresenceClients.PresenceClient.OnClose | apps/web/src/presence/presenceClient.ts:298-302 | the new state is the machine's close-event step; an old socket's event changes nothing |
| PresenceClients.PresenceClient.MarkDisconnected | apps/web/src/presence/presenceClient.ts:310-319 | the new state is the machine's disconnect step |
| PresenceClients.PresenceClient.OnMessage | apps/web/src/presence/presenceClient.ts:321-358 | the new state is the machine's message step |
| PresenceClients.Drive | apps/web/src/presence/presenceClient.ts:89-358 | any possible course of calls and callbacks takes the object through the run of the machine |
| PresenceClients.Session | apps/web/src/presence/presenceClient.ts:113-319 | a new object driven through any course of events: until closed it is never stuck once connected, has exactly one thing under way if every connect was called idle and it was not turned away, and its cursors keep their distance, are the latest, are what the messages carry, none is lost exactly if the course of events is loss-free, and it shows exactly those whose last frame still counts |
| PresenceClients.CloseAndDrive | apps/web/src/presence/presenceClient.ts:136-144 | an object of any history, closed and driven on through any course of events, holds no socket, timer or cursor, shows no remote, makes no socket and sends nothing |
| PresenceRuns.NeverDoubledExactlyWhenConnectingIdle | apps/web/src/presence/presenceClient.ts:129-133 | in every run there is at most one ticket request, held socket, reconnect timer or final stop at every point before a close, if and only if `connect()` is only called while no request, socket or timer is under way |
| PresenceRuns.NeverStuckNeverDoubled | apps/web/src/presence/presenceClient.ts:249-319 | in every run, once connected and until closed, at least one of these is there and at most as many as there were connects, and exactly one when every connect was called idle |
| PresenceRuns.ConnectingTwiceDoubles | apps/web/src/presence/presenceClient.ts:129-133 | what doubling looks like: a run with two connects in a row ends with two open sockets, one of them held by nobody |
| PresenceRuns.ReconnectsBackOff | apps/web/src/presence/presenceClient.ts:193-203 | in every run the first delay since an open is one second, each further one twice as long up to thirty, and catch-up runs exactly opens minus one times |
| PresenceTraces.ReconnectsAreTimed | apps/web/src/presence/presenceClient.ts:193-203 | after every step of every run the reconnect timer is where it was, unless it fired, the session was turned away for good, or it was disconnected otherwise: then it is due in one second the first time since an open, and in twice as long each further time, up to thirty |
| PresenceTraces.StoppedExactlyWhenTurnedAway | apps/web/src/presence/presenceClient.ts:310-319 | the session has stopped for good exactly if its held socket closed with 4403 or 4413 and it was not connected since |
| PresenceTraces.TraceIsOfTheEvents | apps/web/src/presence/presenceClient.ts:281-292 | the counts and lists the run theorems speak of are those of the events, and the reconnect callback ran at every open but the first |
| PresenceRuns.CursorsAreThrottled | apps/web/src/presence/presenceClient.ts:151-163 | in every run publications are at least a throttle window apart, each carries the latest cursor, every cursor is published, superseded, dropped or pending, and the cursor messages sent are the publications, in order |
| PresenceRuns.NothingIsLostExactlyInLossFreeRuns | apps/web/src/presence/presenceClient.ts:151-189 | in every run each cursor is published, superseded or still pending if and only if, while one is pending, no close, refused or useless ticket or loss of the held socket stops the throttle, and it never fires without an open socket |
| PresenceRuns.EveryCursorGoesOutInTime | apps/web/src/presence/presenceClient.ts:151-163 | in every run that loses nothing, with timers at most `lateness` late, each cursor or a later one has gone out one throttle window plus `lateness` after it was moved, however often the cursor keeps moving |
| PresenceRuns.CursorGoesOutUnlessStopped | apps/web/src/presence/presenceClient.ts:151-163 | the same for one cursor at any point of any run: only what happens until the throttle fires next matters |
| PresenceRuns.StoppedThrottleLosesACursor | apps/web/src/presence/presenceClient.ts:172-189 | if the throttle is stopped first, or fires without an open socket, a cursor is lost |
| PresenceRuns.CursorsGoOutWhileOpen | apps/web/src/presence/presenceClient.ts:151-163 | with every connect called idle, each cursor or a later one goes out within one throttle window plus `lateness` while the held socket stays open |
| PresenceRuns.RefusedTicketLosesACursor | apps/web/src/presence/presenceClient.ts:249-263 | why the connects must be idle: a run in which a second ticket is refused loses the pending cursor while the socket stays open |
| PresenceRuns.QuiescenceAfterClose | apps/web/src/presence/presenceClient.ts:136-144 | after close from any state, over every later interleaving, no socket is made, nothing is sent, no timer is pending and the store stays disconnected and empty |
| PresenceRuns.TimelyRunsArePrompt | apps/web/src/presence/presenceClient.ts:151-163 | with timers at most `lateness` late, whoever calls what, a published or pending cursor is at most one throttle window plus `lateness` old |
| PresenceRuns.TimelyRunsAreFresh | apps/web/src/presence/presenceClient.ts:205-227 | with connects called idle and timers at most `lateness` late, a silent remote goes within the stale limit plus one sweep interval plus `lateness` |
| PresenceTraces.ShownExactlyWhenHeard | apps/web/src/presence/presenceClient.ts:321-358 | until the session is closed, a sender is shown exactly if its last frame was active and neither a disconnect nor a sweep more than 90 seconds later came since; with that frame's name, cursor, selection and arrival time |
| PresenceTraces.ConnectionIsTheLastAnnounced | apps/web/src/presence/presenceClient.ts:129-319 | the store shows the phase of the last connect, reconnect, open or disconnect |
| PresenceTraces.StepSends | apps/web/src/presence/presenceClient.ts:166-247 | a step sends exactly the throttled cursor, the selection or the idle notice it has to, and only through an open socket |
| PresenceTraces.IdleIsSaidOnce | apps/web/src/presence/presenceClient.ts:205-220 | a step announces idleness exactly if it is a sweep through an open socket, nothing has stirred for a minute, and no earlier sweep has found that since |
| PresenceTraces.SweepsKeepTheirInterval | apps/web/src/presence/presenceClient.ts:205-212 | two sweeps are at least fifteen seconds apart in every run |
| RateLimit.InMemoryRateLimiter.Check | apps/server/src/core/rateLimit.ts:35-49 | one hit is recorded, only its key's entry changes, and the verdict is the one the history of hits determines |
| RateLimit.TableHoldsEntries | apps/server/src/core/rateLimit.ts:35-49 | after every run the table holds for each key what its own hits make of it |
| RateLimit.SlidingBound | apps/server/src/core/rateLimit.ts:35-49 | with a clock that never goes back, any half-open interval of window length has at most `2 * limit - 1` allowed hits of a key (a limit below one acts as one) |
| RateLimit.BoundIsReached | apps/server/src/core/rateLimit.ts:35-49 | for every limit of at least one and window of at least two milliseconds some run reaches that bound |
| RateLimit.FirstHitsOfAWindowPass | apps/server/src/core/rateLimit.ts:39-48 | exactly the first `limit` hits of a window are allowed (just the first for a limit below one), and each verdict says how many are left |
| RateLimit.WindowsFollowEachOther | apps/server/src/core/rateLimit.ts:37-42 | a hit opens a window exactly if none of its key did before, or the last that did is a whole window or more ago; it is allowed and leaves the rest of the limit |
| RateLimit.LimitIsKeptExactlyWhenPositive | apps/server/src/core/rateLimit.ts:39-42 | at most `limit` allowed hits per window holds in every run if and only if the limit is at least one |
| RateLimit.FirstHitIsAllowedAnyway | apps/server/src/core/rateLimit.ts:39-42 | the failing case: with a limit below one the first hit exceeds the limit and is allowed |
| RateLimit.OtherKeysDoNotMatter | apps/server/src/core/rateLimit.ts:37-44 | a key's entry depends on the hits on that key alone |
| StripComments.StripComments | tools/repo-tools/src/webConsumers.ts:75-108 | the in-place scanner computes the token-by-token stripping of the text |
| StripComments.ReadQuoted | tools/repo-tools/src/webConsumers.ts:111-120 | reader and scanner agree: what it returns is the token the scanner steps over, and stripping leaves it |
| StripComments.StrippingMovesNothing | tools/repo-tools/src/webConsumers.ts:70-108 | every character stays in its place or turns into a space, and the length grows, by two, exactly when a block comment never ends |
| StripComments.NewlinesStay | tools/repo-tools/src/webConsumers.ts:84-92 | a position holds a newline after stripping exactly when it did before |
| StripComments.NoCommentIsLeft | tools/repo-tools/src/webConsumers.ts:75-108 | the stripped text has no comment |
| StripComments.UnchangedExactlyWithoutComments | tools/repo-tools/src/webConsumers.ts:75-108 | stripping leaves a text alone if and only if it has no comment |
| StripComments.UnclosedCommentGrows | tools/repo-tools/src/webConsumers.ts:88-95 | the shortest text that grows: an opened block comment that is never closed |
| StripComments.StrippingIsIdempotent | tools/repo-tools/src/webConsumers.ts:75-108 | stripping twice is the same as once, for every text |
| StripComments.LineCommentIsBlanked | tools/repo-tools/src/webConsumers.ts:81-85 | a line comment, up to the end of its line, turns into spaces |
| StripComments.BlockCommentIsBlanked | tools/repo-tools/src/webConsumers.ts:86-95 | a block comment, up to and with its first closing mark, turns into spaces and its newlines |
| StripComments.OpenCommentIsBlanked | tools/repo-tools/src/webConsumers.ts:86-95 | one that is never closed turns into spaces and newlines, and two more spaces follow |
| StripComments.QuotedTextStays | tools/repo-tools/src/webConsumers.ts:96-104 | a text in single, double or back quotes stays as it is, comment marks and escaped quotes included |
| StripComments.OpenQuoteStays | tools/repo-tools/src/webConsumers.ts:96-104 | a quote that is never closed keeps all that follows it |
| StripComments.CodeStays | tools/repo-tools/src/webConsumers.ts:104-106 | any other character stays, and what follows is stripped on its own |
| CommentThreads.ResolveRootId | apps/web/src/comments/commentThreads.ts:27-35 | the walk stops on every list without circles, for any comment, and returns the id its chain ends at |
| CommentThreads.RootIsTop | apps/web/src/comments/commentThreads.ts:21-35 | a root has no known parent, and a comment is its own root exactly when it has none |
| CommentThreads.BuildThreads | apps/web/src/comments/commentThreads.ts:52-78 | one thread per root in list order, each with the replies whose latest root of that id it is, in list order, and the root's anchor; ids may repeat |
| CommentThreads.AnchorsTellWhatIsMissing | apps/web/src/comments/commentThreads.ts:37-41 | a thread without an element has no anchor; otherwise the anchor names the element, and says it is missing exactly if it is not live |
| CommentThreads.PlacedCommentsAreKept | apps/web/src/comments/commentThreads.ts:62-75 | the comments in the threads are, as a multiset, exactly those that are roots or have their root before them |
| CommentThreads.EveryCommentOnceExactlyWhenRootsComeFirst | apps/web/src/comments/commentThreads.ts:62-75 | for every list without circles, every comment occurs exactly once over all roots and replies if and only if no reply stands before its root |
| CommentThreads.ReplyBeforeItsRootIsLost | apps/web/src/comments/commentThreads.ts:74 | the failing case: a list of a reply and then its root gives a thread without the reply |
| CommentThreads.OldestFirstIsEnough | apps/web/src/comments/commentThreads.ts:43-51 | a list with unique ids in which known parents come first has no circle and every root before its replies |
| CommentThreads.ThreadsPartitionTheComments | apps/web/src/comments/commentThreads.ts:43-78 | for such a list the threads hold every comment exactly once |
| CommentThreads.RepliesBelongToTheirRoot | apps/web/src/comments/commentThreads.ts:63-74 | a reply stands after the root of its thread, its chain ends at that root's id, and no later root before it has the same id |

## Left out

- Segments.IntersectExactlyWhenTheyMeet: over `real` coordinates; floating-point rounding is not modelled, here or in any other geometry.
- StructuralDiff.Diff: two signatures are equal exactly when the fields are; that `JSON.stringify` drops `undefined` and turns `NaN` into `null` is not modelled.
- Compile.CompileIr: a new value replaces the pushes to a shared array and the later write to an arrow's `boundElements`; random numbers are a function of the element id, and colours other than the stroke colour, seeds, fonts, points and bindings' gaps are not kept.
- SceneSemantics.ExtractSceneSemantics: the optional `semantics` metadata attached to elements is left out; the decompiler never passes any.
- Decompile.DecompileScene: the constant `version` and `kind` of the document are left out; every container is a group, as in the code.
- RoundTrip.CompileThenDecompile: a container's kind never survives compilation, and a node's component key and semantics and an edge's mode and protocol survive only through metadata (`RoundTrip.NothingIsLostWithMetadata`).
- CommentThreads.BuildThreads: the map from root to thread holds the thread's position, not the shared object; circular parents, on which the code would not return and which the server rules out, are excluded.
- RateLimit.InMemoryRateLimiter.Check: the entry whose count the code increments in place is a value in the map; the time is a parameter; `limit` and `windowMs` are whole numbers.
- StripComments.StripComments: `readTemplate`, `readArgument`, path normalisation and the scan for fetch calls are not modelled; a character is one Dafny `char`, where JavaScript indexes UTF-16 units.
- Metrics.CountCrossings: counting truncated labels and `computeWhitespaceBalance`, which needs square roots, are not modelled.
- PresenceClients.PresenceClient.OnTicket: a WebSocket constructor that throws, and the text of URLs and messages, are not modelled; a message counts as its payload.
- PresenceClients.PresenceClient.OnOpen: the `onReconnected` callback is a counter; what the caller does in it is not modelled.
- PresenceClients.Drive: the browser sends frames only from open sockets and fires no cleared timer; network delays are arbitrary but not modelled further.
- Archives.VerifyBackup: an archive is its manifest and a map from path to content; reading, writing and compressing zip files are not modelled, and SHA-256 is a function that is injective where a lemma requires it.
- BackupCreate.CreateBackup: the dump is the three append-only tables; the rest of the database, and `pg_dump` and `psql` themselves, are not modelled. Listing and reading the object store never fail.
- BackupCreate.CreateIncrementalBackup: rows stand in insertion order, where the query orders by `created_at`; times are whole numbers, where the database keeps microseconds and the manifest milliseconds; NULL columns are not modelled.
- BackupRestore.Restorer.RestoreIncrementalChain: the database accepts every row; constraint violations and a target that already holds rows for an increment are not modelled.
- BackupRoundTrip.RestoredSnapshotsHaveTheirObjects: assumes that objects are written once and kept and that COPY prints snapshot keys as they are; without that, `BackupRoundTrip.RestoredObjectsAreThoseBrought` says what comes back.
- `applyRemote`, the mutation queue and the sync client's retries and websocket gateway: not modelled.
- The layout engines: a parameter, with the demands of `CompiledScenes.Fits` where a lemma needs them.
- Mermaid and Structurizr exchange, AI write tools, the MCP server, HTTP routes, RBAC, crypto and the user interface: would add only easy members.
