/** How the pieces meet: the store's active operations are what the worker
    folds, the panel size names the box the fold starts from, each settled
    promise receives a response computed for operations of the same digest,
    and the view shows the edges of the mesh it receives. */
module Pipeline {
  import opened Wrappers
  import opened Operations
  import opened CadTypes
  import opened OperationsStore
  import opened CadInput
  import opened CurrentPanelSize
  import opened HashOperations
  import opened ShapeBuilder
  import opened TriangleEdges
  import opened OccWorker
  import opened CadWorker
  import opened PanelMesh

  /** Without a resize nothing ever adds material: cuts of the empty shape
      stay empty. */
  lemma {:induction false} NoResizeNoMaterial(s: Shape, ops: seq<Operation>, p: Point)
    requires forall q :: !Contains(s, q)
    requires forall j :: 0 <= j < |ops| ==> !ops[j].body.Resize?
    ensures !Contains(FoldFrom(s, ops), p)
    decreases |ops|
  {
    if ops != [] {
      var next := ApplyOp(s, ops[0].body);
      assert forall q :: !Contains(next, q);
      assert forall j :: 0 <= j < |ops[1..]| ==> ops[1..][j] == ops[j + 1];
      NoResizeNoMaterial(next, ops[1..], p);
    }
  }

  /** The shape the worker builds for the active operations starts from a box
      of exactly the displayed panel size, cut by the operations after the
      last active resize; with no active resize it holds no material. */
  lemma PanelSizeIsTheFoldBase(s: History)
    requires Valid(s)
    ensures var active := ActiveOperations(s);
      var d := CurrentPanelSize.CurrentPanelSize(s);
      match LastActiveResize(s)
      case Some(i) => Fold(active) == FoldFrom(Box(d.w, d.h, d.t), active[i + 1..])
      case None => forall p :: !Contains(Fold(active), p)
  {
    var active := ActiveOperations(s);
    match LastActiveResize(s)
    case Some(i) =>
      assert active[i] == s.ops[i];
      FoldForgetsBeforeResize(Empty, Empty, active, i);
      assert active[i..][0] == active[i] && active[i..][1..] == active[i + 1..];
    case None =>
      forall p | true ensures !Contains(Fold(active), p) {
        NoResizeNoMaterial(Empty, active, p);
      }
  }

  /** No stale geometry: a settled promise receives the response to a request
      whose operations have the same digest as the operations it posted. */
  lemma SettledWithOwnDigest(h: Hasher, k: Kernel, ls: seq<Waiter>, w: Waiter, mine: seq<Operation>, sent: seq<Operation>, n: nat)
    requires DistinctHandles(ls) && w in ls && w.version == HashOperations.HashOperations(h, mine)
    requires var d := Dispatch(ls, Response(HandleCad(k, CadIn(sent, HashOperations.HashOperations(h, sent)))));
      n < |d.1| && d.1[n].handle == w.handle
    ensures Digest(h, mine) == Digest(h, sent)
  {
    var out := HandleCad(k, CadIn(sent, HashOperations.HashOperations(h, sent)));
    var d := Dispatch(ls, Response(out));
    var j :| 0 <= j < |ls| && ls[j].handle == d.1[n].handle && ls[j].version == out.version;
    var m :| 0 <= m < |ls| && ls[m] == w;
    assert ls[j] == w;
    SameVersionIffSameDigest(h, mine, sent);
  }

  /** A successful worker response is displayed with the edges of its own
      index buffer, whichever branch the callback takes, over the
      triangulation of the folded operations. */
  lemma WorkerMeshIsShown(k: Kernel, req: CadIn)
    requires HandleCad(k, req).mesh.Some?
    ensures var out := HandleCad(k, req);
      && !Failed(out)
      && WellFormed(out.mesh.value)
      && ShownPairs(out) == EdgePairs(out.mesh.value.indices)
      && out.mesh.value == Triangulate(k.triangulate(Fold(req.operations)).value)
  {
    HandleCadOutcome(k, req);
  }
}
