# Panel configurator recompute pipeline, in Dafny

This project models the recompute pipeline of a parametric panel configurator
built on OpenCascade.js. A panel is described by an ordered history of
operations: `resize`, `rectCut` and `circleCut`. An undo/redo index marks the
last active operation. The active prefix is versioned by a hex-rendered digest
and posted to a compute worker. The worker folds the operations into a shape,
triangulates it and extracts the wireframe edges. The UI side offers each
response to the waiters registered for that version, and the panel view then
shows the mesh and its edges.

Each source file has its own module. Several definitions model source code as
written and are described in the table through the lemmas about them:
`CadWorker.ForEachFrom` (the `forEach` with the in-loop `splice`),
`OccWorker.FoldFrom` (the operation fold), `OccWorker.Push` (the edge scan's
`push`), `OccWorker.Step` and `OccWorker.Run` (the worker's message handler
and its run over a trace of events), and `PanelMesh.Failed` (the truthiness
test on the error). The modules:

- `Operations`: `src/models/Operation.ts`
- `CadTypes`: `src/engine/cadTypes.ts`
- `OperationsStore`: `src/store/operationsStore.ts`
- `CadInput`: `src/hooks/useCadInput.ts`
- `CurrentPanelSize`: `src/hooks/useCurrentPanelSize.ts`
- `HashOperations`: `src/utils/hashOperations.ts`
- `ShapeBuilder`: `src/engine/applyOp.ts`
- `TriangleEdges`: the edge walk shared by both edge scans
- `OccWorker`: `src/workers/occ.worker.ts`
- `CadWorker`: `src/engine/cadWorker.ts`
- `EdgesFromIndices`: `src/utils/edgesFromIndices.ts`
- `PanelMesh`: `src/hooks/usePanelMesh.ts`
- `Pipeline`: lemmas that join the modules

The modules consist of pure functions over immutable datatypes, plus loop methods for the two edge scans. The store actions
map a `History` to a `History`. The worker is a state machine run over a trace
of events. The listener table is a sequence of waiters.

Two collaborators are passed in as values rather than modelled:

- **The geometric kernel.** Shapes are symbolic terms: `Empty`, `Box`,
  `Cylinder`, `Translate` and `Cut`. A point-membership predicate `Contains`
  gives them a meaning, so that "a resize discards the input" and "the default
  depth goes through the panel" can be stated. The kernel's exceptions and its
  face triangulation are a `Kernel` value made of two functions.
- **The digest.** `JSON.stringify`, `TextEncoder` and SHA-1 are a `Hasher`
  value made of three functions. Only the hex rendering of the digest bytes is
  modelled in full.

Where the code and its description differ, the model follows the code:

- `updateOp` takes a `Partial<Operation>`, so a patch can rewrite the
  operation's `id`. The model's `Patch` has an `id` field for this.
- `reorderOps` leaves `historyIndex` where it was, even when the move crosses
  the history index.
- `useCurrentPanelSize` filters with `indexOf(o) <= historyIndex`. Entries are
  distinct objects, so `indexOf` of an entry is its own position, and the
  selector is the last resize at or before the history index.

## Model

| member | source | states |
|---|---|---|
| OperationsStore.InitialIsValid | src/store/operationsStore.ts:35-36 | The initial state (no operations, history index -1) satisfies the invariant -1 <= historyIndex <= length-1. |
| OperationsStore.AddOp | src/store/operationsStore.ts:38-47 | The redo branch is cut: operations 0..index are kept, the new operation under the fresh id follows them, and the history index lands on it. The invariant is preserved. |
| OperationsStore.RedoBranchIsLost | src/store/operationsStore.ts:38-47 | From [A,B,C] with the history index on C, two undos and an add of D give [A,D] with the history index on D. |
| OperationsStore.FindIndex | src/store/operationsStore.ts:51 | `findIndex`: the first position carrying the id, or none when no operation carries it. |
| OperationsStore.RemoveOp | src/store/operationsStore.ts:49-56 | An unknown id changes nothing. Otherwise the first match is removed and the others keep their order. The history index drops by one exactly when the removed position is at or before it. The invariant is preserved. |
| OperationsStore.ApplyPatch | src/store/operationsStore.ts:58-63 | `Object.assign`, field by field: each field the patch carries (id, and w, h, t, x, y, cx, cy, r or depth where the kind owns it) takes the patched value, and each field it does not carry keeps its value. The kind never changes, and an unsupported operation keeps its body. |
| OperationsStore.EmptyPatchIsIdentity | src/store/operationsStore.ts:61 | Assigning an empty patch leaves the operation as it was. |
| OperationsStore.PatchIsIdempotent | src/store/operationsStore.ts:61 | Assigning the same patch twice equals assigning it once. |
| OperationsStore.UpdateOp | src/store/operationsStore.ts:58-63 | The length and the history index do not change. Only the first operation with the id is patched, and every other entry is untouched. An unknown id changes nothing. |
| OperationsStore.SpliceIndex | src/store/operationsStore.ts:67-68 | `splice` positions: an in-range position is itself and a negative one counts from the end. A position below `-len` clamps to 0 and one above `len` clamps to `len`. |
| OperationsStore.ReorderOps | src/store/operationsStore.ts:65-70 | The same operations with the same multiplicities come back, the length and the history index are unchanged, the moved operation sits at the target slot, and the other operations keep their order. Positions are normalised as `splice` does: negative ones count from the end and both ends clamp. |
| OperationsStore.MoveIsPermutation | src/store/operationsStore.ts:65-70 | Taking one element out of a sequence and splicing it back in at any position keeps the multiset of elements. |
| OperationsStore.MoveKeepsOrder | src/store/operationsStore.ts:67-68 | Taking one element out and splicing it back in at position j puts it at j and leaves the other elements in their order. |
| OperationsStore.FarNegativeStartMovesFirst | src/store/operationsStore.ts:67-68 | A start before the beginning clamps to the first operation: `[A,B,C]` reordered from -5 to 2 is `[B,C,A]`. |
| OperationsStore.ReorderRoundTrip | src/store/operationsStore.ts:65-70 | Moving an operation from i to j and back from j to i restores the history. |
| OperationsStore.Undo | src/store/operationsStore.ts:72-76 | The history index drops by one when it is at least 0. At -1 nothing changes. The operations are untouched. |
| OperationsStore.Redo | src/store/operationsStore.ts:78-82 | The history index rises by one when it is below the last position. On the last position nothing changes. |
| OperationsStore.Reset | src/store/operationsStore.ts:84-86 | Whatever the state before, the result is empty with history index -1. |
| OperationsStore.RedoAfterUndo | src/store/operationsStore.ts:72-82 | A redo after an undo from an index >= 0 restores the state exactly. |
| OperationsStore.UndoAfterRedo | src/store/operationsStore.ts:72-82 | An undo after a redo that moved restores the state exactly. |
| CadInput.ActiveOperations | src/hooks/useCadInput.ts:11-14 | The active operations are a prefix of the history, of length historyIndex+1. |
| CadInput.NothingActiveInitially | src/hooks/useCadInput.ts:13 | With history index -1, as initially, no operation is active. |
| CadInput.NothingActiveAfterReset | src/hooks/useCadInput.ts:13 | After a reset no operation is active. |
| CadInput.ActiveAfterAdd | src/hooks/useCadInput.ts:13 | After `addOp` the active operations are the previous ones followed by the new operation. |
| CadInput.ActiveAfterUndo | src/hooks/useCadInput.ts:13 | An undo drops exactly the last active operation. |
| CadInput.ActiveAfterUndoRedo | src/hooks/useCadInput.ts:13 | Undo then redo restores the active operations. |
| CadInput.ActiveAfterRemove | src/hooks/useCadInput.ts:13 | Removing an active operation removes it from the active list and keeps the rest in order. Removing an inactive one leaves the active list unchanged. |
| CadInput.ActiveAfterUpdate | src/hooks/useCadInput.ts:13 | An update keeps the active list's length. When the matched operation is active, its entry becomes the patched operation. Every other entry is unchanged. |
| CurrentPanelSize.LastResizeUpTo | src/hooks/useCurrentPanelSize.ts:17-20 | `findLast` scanning backwards: the found resize is at or before the bound, and no resize lies after it up to the bound. None means there is no resize up to the bound. |
| CurrentPanelSize.LastActiveResize | src/hooks/useCurrentPanelSize.ts:17-20 | The same, bounded by the history index. |
| CurrentPanelSize.CurrentPanelSize | src/hooks/useCurrentPanelSize.ts:15-22 | With no active resize the size is 0x0x0. Otherwise it is the dimensions of the last active resize. |
| CurrentPanelSize.LastResizeSeesOnlyPrefix | src/hooks/useCurrentPanelSize.ts:17-20 | The result depends only on the operations up to the bound. |
| CurrentPanelSize.RedoBranchDoesNotMatter | src/hooks/useCurrentPanelSize.ts:19 | Two histories with the same active operations report the same size, so resizes in the redo branch never count. |
| HashOperations.HexDigit | src/utils/hashOperations.ts:13 | A nibble renders as 0-9 then a-f. |
| HashOperations.ToBase16 | src/utils/hashOperations.ts:13 | `toString(16)` writes at least one digit. |
| HashOperations.ToBase16Digits | src/utils/hashOperations.ts:13 | `toString(16)` writes a single digit exactly for values below 16, and only characters in [0-9a-f]. |
| HashOperations.PadStart | src/utils/hashOperations.ts:13 | `padStart` reaches the requested length unless the string is already longer. |
| HashOperations.PadStartKeepsTail | src/utils/hashOperations.ts:13 | Padding only prepends the fill character: the original string is the tail. |
| HashOperations.ByteToHex | src/utils/hashOperations.ts:13 | A byte renders as exactly two characters, high nibble first, zero-padded. |
| HashOperations.Hex | src/utils/hashOperations.ts:12-14 | The output has 2n characters, and byte i occupies characters 2i and 2i+1. |
| HashOperations.HexIsLowercase | src/utils/hashOperations.ts:13 | Every character is in [0-9a-f]. |
| HashOperations.NibbleValue | src/utils/hashOperations.ts:13 | Parsing a hex character gives the value it renders. |
| HashOperations.NibbleOfDigit | src/utils/hashOperations.ts:13 | Parsing inverts `HexDigit`. |
| HashOperations.HexRoundTrip | src/utils/hashOperations.ts:12-14 | Decoding the rendering gives the bytes back. |
| HashOperations.HexIsInjective | src/utils/hashOperations.ts:12-14 | Distinct byte sequences render as distinct strings. |
| HashOperations.HashOperations | src/utils/hashOperations.ts:8-15 | The version has twice as many characters as the digest has bytes, all of them lowercase hex. |
| HashOperations.VersionLengthForSha1 | src/utils/hashOperations.ts:11-14 | A 20-byte SHA-1 digest gives a 40-character version. |
| HashOperations.SameJsonSameVersion | src/utils/hashOperations.ts:9-11 | The version depends on the JSON text only. |
| HashOperations.SameVersionIffSameDigest | src/utils/hashOperations.ts:11-14 | Two versions are equal exactly when the digests are equal. |
| ShapeBuilder.BlockTool | src/engine/applyOp.ts:19-27 | The translated box occupies exactly the block [x,x+w]x[y,y+h]x[0,d]. |
| ShapeBuilder.DiscTool | src/engine/applyOp.ts:29-37 | The translated cylinder occupies exactly the disc of radius r around (cx,cy), from height 0 to d. |
| ShapeBuilder.ApplyOp | src/engine/applyOp.ts:12-43 | A resize yields the box at the origin, whatever the input. A rectCut or circleCut yields the input minus the block or disc, whose depth defaults to 1e6. An unknown kind returns the input unchanged. |
| ShapeBuilder.ResizeIgnoresInput | src/engine/applyOp.ts:14-17 | A resize gives the same shape whatever shape it is applied to. |
| ShapeBuilder.DefaultRectCutGoesThrough | src/engine/applyOp.ts:21-22 | A rectCut without depth removes material through the whole thickness of any panel thinner than 1e6. |
| ShapeBuilder.DefaultCircleCutGoesThrough | src/engine/applyOp.ts:31-32 | The same for a circleCut without depth. |
| ShapeBuilder.ExplicitDepthKeepsMaterialAbove | src/engine/applyOp.ts:21-31 | An explicit depth, 0 included, is used as given: material above that depth stays. |
| TriangleEdges.Candidates | src/workers/occ.worker.ts:131-136 | Sides (i0,i1), (i1,i2), (i2,i0) of each triangle, one triangle after the other: one candidate per index. |
| TriangleEdges.CandidatesAt | src/workers/occ.worker.ts:131-136 | Triangle t contributes candidates 3t, 3t+1 and 3t+2, in that orientation. |
| TriangleEdges.FirstOccurrences | src/workers/occ.worker.ts:124-130 | The kept pairs are the candidates whose unordered key has not occurred earlier. There are never more of them than candidates. |
| TriangleEdges.ExtendFirstOccurrences | src/workers/occ.worker.ts:124-130 | One more candidate is kept exactly when its key is new, and the seen-key set grows by its key. |
| TriangleEdges.FirstOccurrencesKeys | src/workers/occ.worker.ts:121-138 | The kept pairs carry exactly the candidates' keys: every triangle side is represented, and nothing else is. |
| TriangleEdges.FirstOccurrencesDistinct | src/workers/occ.worker.ts:124-130 | No two kept pairs share an unordered key. |
| TriangleEdges.FirstOccurrencesAreCandidates | src/workers/occ.worker.ts:124-130 | Every kept pair is a side as the triangle names it, so the orientation is the first occurrence's. |
| TriangleEdges.FirstOccurrencesKeepFirsts | src/workers/occ.worker.ts:124-130 | Every candidate that is first with its key is kept. |
| TriangleEdges.SingleTriangleEdges | src/workers/occ.worker.ts:121-138 | Triangle (0,1,2) gives the 3 pairs (0,1), (1,2), (2,0). |
| TriangleEdges.SharedSideCandidates | src/workers/occ.worker.ts:131-136 | Triangles (0,1,2) and (1,3,2) give six candidates in push order. |
| TriangleEdges.DistinctKeysAllKept | src/workers/occ.worker.ts:124-130 | Candidates with pairwise distinct keys are all kept, in order. |
| TriangleEdges.SharedSideEdges | src/workers/occ.worker.ts:121-138 | Triangles (0,1,2) and (1,3,2) give 5 pairs, the shared side (2,1) being dropped. |
| TriangleEdges.PairsToDTO | src/hooks/usePanelMesh.ts:15-29 | `pairsToDTO` keeps the length. Edge i has id i and the coordinates of a followed by those of b, NaN past the end of the buffer. |
| TriangleEdges.PairsToDTOAppend | src/hooks/usePanelMesh.ts:15-29 | One more pair appends one more record, numbered after the others. |
| OccWorker.FoldAppend | src/workers/occ.worker.ts:51-55 | Operation i is applied to the result of operations 0..i-1, in order. |
| OccWorker.FoldForgetsBeforeResize | src/workers/occ.worker.ts:51-55 | The fold equals the fold of the suffix starting at any resize, from any shape, so earlier operations are irrelevant. |
| OccWorker.SoleResizeIsItsBox | src/workers/occ.worker.ts:51-55 | A lone 100x50x10 resize folds to exactly the points of that box. |
| OccWorker.BuildFrom | src/workers/occ.worker.ts:49-55 | A fold that the kernel does not abort yields the symbolic fold. |
| OccWorker.BuildWithoutRejection | src/workers/occ.worker.ts:49-55 | With a kernel that never raises, the build is the fold. |
| OccWorker.Coordinates | src/workers/occ.worker.ts:96-100 | Three coordinates per node. |
| OccWorker.CoordinatesAt | src/workers/occ.worker.ts:97-99 | Node i is at slots 3i, 3i+1 and 3i+2 as x, y, z. |
| OccWorker.Renumber | src/workers/occ.worker.ts:101-109 | Three indices per triangle. |
| OccWorker.RenumberAt | src/workers/occ.worker.ts:102-108 | 1-based corner j of triangle i becomes offset + j - 1 at slots 3i..3i+2. |
| OccWorker.TriangulateFrom | src/workers/occ.worker.ts:86-113 | The face loop yields 3 coordinates per node and 3 indices per triangle of the triangulated faces. |
| OccWorker.RenumberInRange | src/workers/occ.worker.ts:102-108 | With corners in 1..n for a face of n nodes, every renumbered index lies in offset..offset+n-1. |
| OccWorker.TriangulateIndicesInRange | src/workers/occ.worker.ts:88-111 | With every face well numbered, every global index lies in offset..offset+totalNodes-1. |
| OccWorker.TriangulateIndexAt | src/workers/occ.worker.ts:88-111 | Triangle t of face k lands at slot TotalTriangles(faces[..k])+t, its corners shifted by the node count of the earlier triangulated faces. |
| OccWorker.TriangulateNodeAt | src/workers/occ.worker.ts:91-100 | Node i of face k lands at node slot TotalNodes(faces[..k])+i. |
| OccWorker.IndexLandsHead | src/workers/occ.worker.ts:101-109 | The triangles of the first face land at the start of the index buffer, renumbered from the running offset. |
| OccWorker.IndexLandsTail | src/workers/occ.worker.ts:88-111 | Slots of the rest of the loop shift by the first face's triangle count and corner offset. |
| OccWorker.NodeLandsHead | src/workers/occ.worker.ts:96-100 | The nodes of the first face land at the start of the coordinate buffer. |
| OccWorker.NodeLandsTail | src/workers/occ.worker.ts:88-111 | Node slots of the rest of the loop shift by the first face's node count. |
| OccWorker.SkipHead | src/workers/occ.worker.ts:88-111 | Both buffers are the first face's entries followed by those of the rest of the loop. |
| OccWorker.TotalsOfPrefix | src/workers/occ.worker.ts:110 | The node and triangle totals of a prefix split as first face plus the rest. |
| OccWorker.TriangulateKeepsCorners | src/workers/occ.worker.ts:95-111 | Each of the three corners of every triangle gets a global index that designates the coordinates of that corner's own node. |
| OccWorker.UntriangulatedFaceIsInert | src/workers/occ.worker.ts:95-111 | A face without a triangulation, at any position, changes neither buffer nor the offset. |
| OccWorker.NoneStep | src/workers/occ.worker.ts:95 | A leading untriangulated face adds nothing. |
| OccWorker.ConsStep | src/workers/occ.worker.ts:95-111 | A leading face contributes its coordinates and renumbered triangles in front of the rest, which starts at the advanced offset. |
| OccWorker.ToUint32 | src/workers/occ.worker.ts:117 | The Uint32Array store gives a value below 2^32 that is congruent to the input modulo 2^32, so exactly the reduction modulo 2^32. It is the identity below 2^32. |
| OccWorker.Triangulate | src/workers/occ.worker.ts:81-119 | The posted positions are exactly the coordinates the face loop collected. The mesh has 3 coordinates per node and 3 indices per triangle, both multiples of 3. |
| OccWorker.MeshKeepsCorners | src/workers/occ.worker.ts:88-118 | In the posted mesh of well-numbered faces with at most 2^32 nodes, each corner of each triangle is stored as an index whose posted coordinates are those of the corner's own node. |
| OccWorker.TriangulateIndicesValid | src/workers/occ.worker.ts:97-118 | With well-numbered faces and fewer than 2^32 nodes, the stored indices are the loop's own, and each one designates a node. |
| OccWorker.PushStep | src/workers/occ.worker.ts:124-130 | One `push` is one step of the first-occurrence walk. |
| OccWorker.TriangleStep | src/workers/occ.worker.ts:131-136 | Pushing a triangle's three sides advances the scan state by exactly three candidates of the reference walk. |
| OccWorker.ExtractEdgePairs | src/workers/occ.worker.ts:121-138 | The scan's output is exactly the first occurrences of the triangle sides. |
| OccWorker.HandleCad | src/workers/occ.worker.ts:40-76 | Every response echoes its request's version. |
| OccWorker.HandleCadOutcome | src/workers/occ.worker.ts:42-75 | Empty operations give no mesh, no edges and no error. Otherwise a response carries either an error or a mesh. A mesh is well formed, is the triangulation of the fold, and comes with its own edge pairs. |
| OccWorker.ErrorIffKernelRaised | src/workers/occ.worker.ts:41-75 | For non-empty operations, the response is an error exactly when the kernel raised while folding or triangulating. |
| OccWorker.HandleAll | src/workers/occ.worker.ts:26 | A batch gives exactly one response per request. |
| OccWorker.HandleAllAt | src/workers/occ.worker.ts:26 | Response i answers request i. |
| OccWorker.HandleAllAppend | src/workers/occ.worker.ts:26-33 | Answering two batches in turn is answering their concatenation. |
| OccWorker.RunWhileReady | src/workers/occ.worker.ts:29-35 | Once ready, each message is answered at once, in arrival order. |
| OccWorker.RunWhileInitializing | src/workers/occ.worker.ts:20-35 | Before the kernel loads, messages are queued in arrival order and nothing is posted. On loading, the ready signal comes first and then the queue followed by later requests, in order. |
| OccWorker.QueueOneMore | src/workers/occ.worker.ts:30-31 | A message before readiness joins the back of the queue and posts nothing. |
| OccWorker.LoadNow | src/workers/occ.worker.ts:22-27 | Loading posts the signal, then answers the queue in order. |
| OccWorker.WorkerTrace | src/workers/occ.worker.ts:20-35 | From creation: nothing posted before loading. After loading come the ready signal, then exactly one response per request in arrival order, each echoing its request's version. |
| CadWorker.PostCad | src/engine/cadWorker.ts:20-35 | The payload carries the operations and their version, and the waiter appended to the table awaits that same version. Handles stay distinct. |
| CadWorker.Dispatch | src/engine/cadWorker.ts:15-29 | Each settled promise gets the posted response itself, errors included, and belongs to a waiter registered for its version. The waiters that stay form a sub-multiset of the table, and the ones that stay plus the ones settled number exactly the table's waiters. |
| CadWorker.ReferenceSplits | src/engine/cadWorker.ts:17-26 | Remaining and resolved waiters together are exactly the table's waiters. |
| CadWorker.ReferenceResolvesMatches | src/engine/cadWorker.ts:25 | Only waiters whose version equals the message's are resolved. |
| CadWorker.ReferenceResolvesMembers | src/engine/cadWorker.ts:17 | Resolved waiters come from the table. |
| CadWorker.SkipStep | src/engine/cadWorker.ts:17-26 | After a removal the next waiter is passed over. |
| CadWorker.ForEachIsReference | src/engine/cadWorker.ts:17-26 | `forEach` with the in-loop `splice` equals the reference reading: a matching waiter is resolved unless the waiter just before it was removed. |
| CadWorker.DispatchIsReference | src/engine/cadWorker.ts:15-18 | The same, for the whole table. |
| CadWorker.ResolvedAreRemoved | src/engine/cadWorker.ts:26 | With distinct handles, no resolved waiter stays registered. |
| CadWorker.SettledAreRemoved | src/engine/cadWorker.ts:26-27 | A settled promise's waiter has left the table, so it cannot be settled again. |
| CadWorker.OthersStay | src/engine/cadWorker.ts:25 | Waiters of other versions remain, in their order. |
| CadWorker.NoMatchNoChange | src/engine/cadWorker.ts:15-25 | A version that no waiter awaits changes nothing. |
| CadWorker.FirstMatchResolved | src/engine/cadWorker.ts:17-27 | The first waiter of the message's version is always resolved. |
| CadWorker.SingleMatchResolved | src/engine/cadWorker.ts:17-27 | When at most one waiter awaits the version, none of that version survives. |
| CadWorker.BackToBackSameVersion | src/engine/cadWorker.ts:17-26 | Two waiters back to back on one version: the first is resolved and the second is skipped for this message. |
| CadWorker.ResponseSettlesItsRequest | src/engine/cadWorker.ts:20-35 | With no other waiter on the version, a request's response settles exactly its own promise and restores the table. |
| CadWorker.ListAfterResolvingLast | src/engine/cadWorker.ts:17-27 | A lone matching waiter at the end is resolved and the rest stay. |
| CadWorker.OthersStayRegistered | src/engine/cadWorker.ts:15-25 | After a message the table keeps every waiter of another version, in order. |
| CadWorker.UnmatchedMessageChangesNothing | src/engine/cadWorker.ts:15-25 | A message nobody waits for leaves the table as it was and settles nothing. |
| CadWorker.DistinctVersionsAllSettled | src/engine/cadWorker.ts:17-27 | With pairwise distinct pending versions, no waiter of the response's version is left. |
| CadWorker.ReadySignalSettlesNothing | src/engine/cadWorker.ts:15-25 | The ready signal has no version: it settles nothing and leaves the table as it was. |
| EdgesFromIndices.AddEdge | src/utils/edgesFromIndices.ts:23-40 | A side with a seen key changes nothing. A new one is mapped to the next id, and its record gets that id and the coordinates of a then b. |
| EdgesFromIndices.AddSide | src/utils/edgesFromIndices.ts:23-40 | Handling side n advances the scan by one step of the first-occurrence walk. |
| EdgesFromIndices.EdgesFromIndices | src/utils/edgesFromIndices.ts:16-52 | The records are `pairsToDTO` of the worker's edge pairs: the same pairs element for element, so each side is present once, ids are 0..n-1 and coordinates are resolved. |
| EdgesFromIndices.Side | src/utils/edgesFromIndices.ts:42-49 | One side extends the key set and the records as one walk step. |
| PanelMesh.OnResponse | src/hooks/usePanelMesh.ts:37-51 | An error (non-empty) or a missing mesh leaves the view unchanged. Otherwise the mesh is shown, with `pairsToDTO` of the worker's pairs when it sent some, or else the display-side edges. |
| Pipeline.NoResizeNoMaterial | src/engine/applyOp.ts:19-42 | Cuts applied to the empty shape never add material. |
| Pipeline.PanelSizeIsTheFoldBase | src/hooks/useCurrentPanelSize.ts:15-22 | The shape for the active operations is the box of the displayed panel size cut by the later operations. With no active resize it is empty. |
| Pipeline.SettledWithOwnDigest | src/engine/cadWorker.ts:22-27 | A settled promise gets a response computed for operations with the same digest as its own. |
| Pipeline.WorkerMeshIsShown | src/hooks/usePanelMesh.ts:38-50 | A worker mesh is never an error, is well formed, is the triangulation of the fold, and is shown with its own edge pairs whichever branch the callback takes. |

## Left out

- The OpenCascade kernel's geometry (`BRepPrimAPI_*`, `BRepAlgoAPI_Cut`, `BRepMesh_IncrementalMesh` with its 0.5 mm deflection, the face explorer) is left out because it is foreign code. Shapes are symbolic terms, and the meshing is an abstract list of faces supplied by the `Kernel` value.
- Kernel exceptions are abstracted as a per-shape rejection message, because the real exceptions come from foreign code. The message text and `String(err)` are not modelled.
- `initOcc` (dynamic WASM import, memoised promise) is left out as host behaviour. The worker sees it as a single `KernelLoaded` event that occurs at most once.
- `JSON.stringify`, `TextEncoder` and `crypto.subtle.digest` are foreign calls. They are left out as the three function fields of `Hasher`.
- The debounce around `send`, and its re-creation on every render, are left out because they rest on host timer semantics.
- Float32 precision of positions is left out as host runtime semantics: coordinates are reals.
- The `postMessage` buffer transfer is left out as host runtime semantics.
- Normals (`CadOut.mesh.normals`) are left out because the worker never produces them.
- The asynchrony of `postCad` (the waiter is pushed only after the hash is awaited) is left out: `PostCad` hashes, registers and posts as one step.
- The `postCad` promise never settling when the hash itself throws is left out, since the model's hash is total.
- `nanoid` is left out as an id oracle: `AddOp` takes the fresh id as a parameter.
- `console.warn` and `console.error` are logging and are left out.
- UI and rendering (`CutBoxModal`, `AppViewer`, `PanelMesh.tsx`, `main.tsx`), `useInitializePanel` and the build configuration are outside the pipeline and are left out.
- OperationsStore.ReorderOps: a `start` that selects no element is left out: `start >= |ops|`, or any start on an empty history. There `splice` returns an empty array and `undefined` is inserted, which an operation sequence cannot hold, so the precondition asks for `0 < |ops|` and `start < |ops|`. A start below `-|ops|` is modelled: it clamps to the first operation.
- OperationsStore.ReorderOps: positions are integers. `splice` also accepts fractional positions, which it truncates toward zero, and NaN, which it reads as 0. Those inputs are not modelled.
- OccWorker.MeshKeepsCorners: the corner guarantee covers meshes of at most 2^32 nodes whose triangles name nodes 1..n of their face. Above 2^32 nodes the Uint32Array store wraps indices around. Corner numbering is the kernel's promise and is taken as given.
- OperationsStore.ApplyPatch: patches of the `type` field and of fields the operation's kind does not own are left out. Both would give objects outside the operation union.
- TriangleEdges.Candidates: index buffers whose length is not a multiple of 3 are left out. Such a buffer would make the last triangle read `undefined`. The worker's buffers always have whole triangles (`OccWorker.Triangulate`).
- EdgesFromIndices.EdgesFromIndices: requires a whole number of triangles, for the same reason.
- PanelMesh.OnResponse: requires a well-formed mesh when one is present. That holds for every mesh the worker sends (`OccWorker.HandleCadOutcome`).
- CadWorker.Dispatch: assumes that `indexOf(handle)` finds the handle. A missing handle would make `splice(-1, 1)` drop the last waiter, but a handle runs only while it is registered and handles are distinct.
- OccWorker.Run: a second `KernelLoaded` event is excluded, because the promise that signals it settles once.
