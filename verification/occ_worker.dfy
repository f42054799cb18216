/** The compute worker (src/workers/occ.worker.ts): it folds the operations
    into a shape, triangulates it face by face, extracts the wireframe edge
    pairs, and answers each request exactly once, holding requests back in a
    queue until the kernel has loaded. The kernel is a parameter made of two
    function values. */
module OccWorker {
  import opened Wrappers
  import opened Operations
  import opened CadTypes
  import opened ShapeBuilder
  import opened TriangleEdges

  // ---------------------------------------------------------------------------
  // The fold
  // ---------------------------------------------------------------------------

  /** Applies the operations one after the other, each to the previous result. */
  function FoldFrom(s: Shape, ops: seq<Operation>): Shape
    decreases |ops|
  {
    if ops == [] then s else FoldFrom(ApplyOp(s, ops[0].body), ops[1..])
  }

  /** The first operation is applied to a fresh, empty shape. */
  function Fold(ops: seq<Operation>): Shape {
    FoldFrom(Empty, ops)
  }

  /** Operation `i` is applied to the result of operations `0..i-1`, in order. */
  lemma {:induction false} FoldAppend(s: Shape, ops: seq<Operation>, op: Operation)
    ensures FoldFrom(s, ops + [op]) == ApplyOp(FoldFrom(s, ops), op.body)
    decreases |ops|
  {
    if ops != [] {
      assert (ops + [op])[1..] == ops[1..] + [op];
      FoldAppend(ApplyOp(s, ops[0].body), ops[1..], op);
    }
  }

  /** Everything before a resize is irrelevant: the fold equals the fold of the
      suffix that starts at that resize, whatever shape either starts from. */
  lemma {:induction false} FoldForgetsBeforeResize(s1: Shape, s2: Shape, ops: seq<Operation>, i: nat)
    requires i < |ops| && ops[i].body.Resize?
    ensures FoldFrom(s1, ops) == FoldFrom(s2, ops[i..])
    decreases i
  {
    if i == 0 {
      ResizeIgnoresInput(s1, s2, ops[0].body);
    } else {
      FoldForgetsBeforeResize(ApplyOp(s1, ops[0].body), s2, ops[1..], i - 1);
      assert ops[1..][i - 1..] == ops[i..];
    }
  }

  /** A lone resize of 100 x 50 x 10 occupies exactly the box [0,100]x[0,50]x[0,10]. */
  lemma SoleResizeIsItsBox(id: OpId)
    ensures forall p :: (Contains(Fold([Operation(id, Resize(100.0, 50.0, 10.0))]), p)
      <==> 0.0 <= p.x <= 100.0 && 0.0 <= p.y <= 50.0 && 0.0 <= p.z <= 10.0)
  {
    var ops := [Operation(id, Resize(100.0, 50.0, 10.0))];
    assert ops[1..] == [];
    assert Fold(ops) == FoldFrom(ApplyOp(Empty, ops[0].body), []);
  }

  // ---------------------------------------------------------------------------
  // The kernel
  // ---------------------------------------------------------------------------

  datatype Triangle = Triangle(n1: int, n2: int, n3: int)

  /** A face's triangulation: nodes, and triangles over 1-based node numbers. */
  datatype Triangulation = Triangulation(nodes: seq<Point>, triangles: seq<Triangle>)

  /** A face of the meshed shape; `None` when the mesher left it untriangulated. */
  datatype Face = Face(triangulation: Option<Triangulation>)

  /** The kernel as seen by the worker. `rejects` is the message of the
      exception the kernel raises while building a shape, if any; `triangulate`
      meshes a shape and enumerates its faces, or raises. */
  datatype Kernel = Kernel(
    rejects: Shape -> Option<string>,
    triangulate: Shape -> Result<seq<Face>, string>)

  /** The fold as the worker runs it: a kernel exception at any operation
      aborts it. An unsupported operation calls no kernel function. */
  function BuildFrom(k: Kernel, s: Shape, ops: seq<Operation>): (r: Result<Shape, string>)
    ensures r.Ok? ==> r.value == FoldFrom(s, ops)
    decreases |ops|
  {
    if ops == [] then Ok(s)
    else
      var next := ApplyOp(s, ops[0].body);
      if !ops[0].body.Unsupported? && k.rejects(next).Some? then Err(k.rejects(next).value)
      else BuildFrom(k, next, ops[1..])
  }

  /** A kernel that never rejects leaves the fold as it is. */
  lemma {:induction false} BuildWithoutRejection(k: Kernel, s: Shape, ops: seq<Operation>)
    requires forall t :: k.rejects(t).None?
    ensures BuildFrom(k, s, ops) == Ok(FoldFrom(s, ops))
    decreases |ops|
  {
    if ops != [] {
      BuildWithoutRejection(k, ApplyOp(s, ops[0].body), ops[1..]);
    }
  }

  // ---------------------------------------------------------------------------
  // Triangulation
  // ---------------------------------------------------------------------------

  function NodeCount(f: Face): nat {
    if f.triangulation.Some? then |f.triangulation.value.nodes| else 0
  }

  function TriangleCount(f: Face): nat {
    if f.triangulation.Some? then |f.triangulation.value.triangles| else 0
  }

  function TotalNodes(faces: seq<Face>): nat
    decreases |faces|
  {
    if faces == [] then 0 else NodeCount(faces[0]) + TotalNodes(faces[1..])
  }

  function TotalTriangles(faces: seq<Face>): nat
    decreases |faces|
  {
    if faces == [] then 0 else TriangleCount(faces[0]) + TotalTriangles(faces[1..])
  }

  /** The nodes' coordinates, flattened x, y, z. */
  function Coordinates(nodes: seq<Point>): (r: seq<real>)
    ensures |r| == 3 * |nodes|
    decreases |nodes|
  {
    if nodes == [] then []
    else [nodes[0].x, nodes[0].y, nodes[0].z] + Coordinates(nodes[1..])
  }

  /** Node `i` occupies slots `3i`, `3i + 1` and `3i + 2`. */
  lemma {:induction false} CoordinatesAt(nodes: seq<Point>, i: nat)
    requires i < |nodes|
    ensures Coordinates(nodes)[3 * i] == nodes[i].x
    ensures Coordinates(nodes)[3 * i + 1] == nodes[i].y
    ensures Coordinates(nodes)[3 * i + 2] == nodes[i].z
    decreases i
  {
    if i > 0 {
      CoordinatesAt(nodes[1..], i - 1);
      assert Coordinates(nodes)[3..] == Coordinates(nodes[1..]);
    }
  }

  /** A face's triangles as global 0-based indices: 1-based node `j` of a face
      whose nodes start at `offset` becomes `offset + j - 1`. */
  function Renumber(tris: seq<Triangle>, offset: nat): (r: seq<int>)
    ensures |r| == 3 * |tris|
    decreases |tris|
  {
    if tris == [] then []
    else
      var t := tris[0];
      [offset + t.n1 - 1, offset + t.n2 - 1, offset + t.n3 - 1] + Renumber(tris[1..], offset)
  }

  /** Triangle `i` occupies slots `3i` to `3i + 2`, each corner shifted to a
      global 0-based index. */
  lemma {:induction false} RenumberAt(tris: seq<Triangle>, offset: nat, i: nat)
    requires i < |tris|
    ensures Renumber(tris, offset)[3 * i] == offset + tris[i].n1 - 1
    ensures Renumber(tris, offset)[3 * i + 1] == offset + tris[i].n2 - 1
    ensures Renumber(tris, offset)[3 * i + 2] == offset + tris[i].n3 - 1
    decreases i
  {
    if i > 0 {
      RenumberAt(tris[1..], offset, i - 1);
      assert Renumber(tris, offset)[3..] == Renumber(tris[1..], offset);
    }
  }

  /** What one face contributes in front of the loop's result for the rest. */
  function Prepend(f: Face, offset: nat, rest: (seq<real>, seq<int>)): (seq<real>, seq<int>) {
    match f.triangulation
    case None => rest
    case Some(tr) => (Coordinates(tr.nodes) + rest.0, Renumber(tr.triangles, offset) + rest.1)
  }

  /** The face loop of `triangulate`, from a running node offset: each
      triangulated face appends its nodes and its renumbered triangles, then
      advances the offset by its node count; other faces add nothing. */
  function TriangulateFrom(faces: seq<Face>, offset: nat): (r: (seq<real>, seq<int>))
    ensures |r.0| == 3 * TotalNodes(faces)
    ensures |r.1| == 3 * TotalTriangles(faces)
    decreases |faces|
  {
    if faces == [] then ([], [])
    else
      Prepend(faces[0], offset, TriangulateFrom(faces[1..], offset + NodeCount(faces[0])))
  }

  /** Every triangle of a face names nodes `1..|nodes|`. */
  predicate CornersInRange(f: Face) {
    f.triangulation.Some? ==>
      var tr := f.triangulation.value;
      forall i :: 0 <= i < |tr.triangles| ==>
        && 1 <= tr.triangles[i].n1 <= |tr.nodes|
        && 1 <= tr.triangles[i].n2 <= |tr.nodes|
        && 1 <= tr.triangles[i].n3 <= |tr.nodes|
  }

  lemma RenumberInRange(tr: Triangulation, offset: nat)
    requires CornersInRange(Face(Some(tr)))
    ensures forall i :: 0 <= i < |Renumber(tr.triangles, offset)| ==>
      offset <= Renumber(tr.triangles, offset)[i] < offset + |tr.nodes|
  {
    var r := Renumber(tr.triangles, offset);
    forall i | 0 <= i < |r|
      ensures offset <= r[i] < offset + |tr.nodes|
    {
      var t := i / 3;
      var tri := tr.triangles[t];
      assert 1 <= tri.n1 <= |tr.nodes| && 1 <= tri.n2 <= |tr.nodes| && 1 <= tri.n3 <= |tr.nodes|;
      assert i == 3 * t || i == 3 * t + 1 || i == 3 * t + 2;
      RenumberAt(tr.triangles, offset, t);
    }
  }

  /** When every face is well numbered, every global index designates a node
      of the concatenated buffer. */
  lemma {:induction false} TriangulateIndicesInRange(faces: seq<Face>, offset: nat)
    requires forall k :: 0 <= k < |faces| ==> CornersInRange(faces[k])
    ensures forall i :: 0 <= i < |TriangulateFrom(faces, offset).1| ==>
      offset <= TriangulateFrom(faces, offset).1[i] < offset + TotalNodes(faces)
    decreases |faces|
  {
    if faces != [] {
      var r := TriangulateFrom(faces, offset);
      var next := offset + NodeCount(faces[0]);
      var rest := TriangulateFrom(faces[1..], next);
      assert TotalNodes(faces) == NodeCount(faces[0]) + TotalNodes(faces[1..]);
      assert forall k :: 0 <= k < |faces[1..]| ==> faces[1..][k] == faces[k + 1];
      TriangulateIndicesInRange(faces[1..], next);
      match faces[0].triangulation
      case None =>
        assert next == offset;
        assert r == rest;
      case Some(tr) =>
        var own := Renumber(tr.triangles, offset);
        assert next == offset + |tr.nodes|;
        assert CornersInRange(faces[0]);
        RenumberInRange(tr, offset);
        assert r.1 == own + rest.1;
        forall i | 0 <= i < |r.1|
          ensures offset <= r.1[i] < offset + TotalNodes(faces)
        {
          if i < |own| {
            assert r.1[i] == own[i];
          } else {
            assert r.1[i] == rest.1[i - |own|];
          }
        }
    }
  }

  /** Triangle `t` of face `k` sits at triangle slot `TotalTriangles(faces[..k]) + t`
      of the loop's index buffer, its corners shifted by the node count of
      the earlier faces. */
  predicate IndexLands(faces: seq<Face>, offset: nat, k: nat, t: nat)
    requires k < |faces| && faces[k].triangulation.Some?
    requires t < |faces[k].triangulation.value.triangles|
  {
    var r := TriangulateFrom(faces, offset);
    var tri := faces[k].triangulation.value.triangles[t];
    var at := 3 * (TotalTriangles(faces[..k]) + t);
    var shift := offset + TotalNodes(faces[..k]);
    && at + 2 < |r.1|
    && r.1[at] == shift + tri.n1 - 1
    && r.1[at + 1] == shift + tri.n2 - 1
    && r.1[at + 2] == shift + tri.n3 - 1
  }

  /** Node `i` of face `k` sits at node slot `TotalNodes(faces[..k]) + i` of the
      loop's coordinate buffer. */
  predicate NodeLands(faces: seq<Face>, offset: nat, k: nat, i: nat)
    requires k < |faces| && faces[k].triangulation.Some?
    requires i < |faces[k].triangulation.value.nodes|
  {
    var r := TriangulateFrom(faces, offset);
    var node := faces[k].triangulation.value.nodes[i];
    var at := 3 * (TotalNodes(faces[..k]) + i);
    && at + 2 < |r.0|
    && r.0[at] == node.x && r.0[at + 1] == node.y && r.0[at + 2] == node.z
  }

  /** Every triangle of every face lands at its global slot. */
  lemma {:induction false} TriangulateIndexAt(faces: seq<Face>, offset: nat, k: nat, t: nat)
    requires k < |faces| && faces[k].triangulation.Some?
    requires t < |faces[k].triangulation.value.triangles|
    ensures IndexLands(faces, offset, k, t)
    decreases k
  {
    if k == 0 {
      IndexLandsHead(faces, offset, t);
    } else {
      assert faces[1..][k - 1] == faces[k];
      TriangulateIndexAt(faces[1..], offset + NodeCount(faces[0]), k - 1, t);
      IndexLandsTail(faces, offset, k, t);
    }
  }

  lemma IndexLandsHead(faces: seq<Face>, offset: nat, t: nat)
    requires 0 < |faces| && faces[0].triangulation.Some?
    requires t < |faces[0].triangulation.value.triangles|
    ensures IndexLands(faces, offset, 0, t)
  {
    var r := TriangulateFrom(faces, offset);
    var own := Renumber(faces[0].triangulation.value.triangles, offset);
    SkipHead(faces, offset);
    assert faces[..0] == [];
    RenumberAt(faces[0].triangulation.value.triangles, offset, t);
    assert r.1[3 * t] == own[3 * t];
    assert r.1[3 * t + 1] == own[3 * t + 1];
    assert r.1[3 * t + 2] == own[3 * t + 2];
  }

  lemma IndexLandsTail(faces: seq<Face>, offset: nat, k: nat, t: nat)
    requires 0 < k < |faces| && faces[k].triangulation.Some?
    requires t < |faces[k].triangulation.value.triangles|
    requires faces[1..][k - 1] == faces[k]
    requires IndexLands(faces[1..], offset + NodeCount(faces[0]), k - 1, t)
    ensures IndexLands(faces, offset, k, t)
  {
    var r := TriangulateFrom(faces, offset);
    var rest := TriangulateFrom(faces[1..], offset + NodeCount(faces[0]));
    TotalsOfPrefix(faces, k);
    SkipHead(faces, offset);
    var skip := 3 * TriangleCount(faces[0]);
    var at' := 3 * (TotalTriangles(faces[1..][..k - 1]) + t);
    assert r.1[skip + at'] == rest.1[at'];
    assert r.1[skip + at' + 1] == rest.1[at' + 1];
    assert r.1[skip + at' + 2] == rest.1[at' + 2];
  }

  /** Every node of every face lands at its global slot. */
  lemma {:induction false} TriangulateNodeAt(faces: seq<Face>, offset: nat, k: nat, i: nat)
    requires k < |faces| && faces[k].triangulation.Some?
    requires i < |faces[k].triangulation.value.nodes|
    ensures NodeLands(faces, offset, k, i)
    decreases k
  {
    if k == 0 {
      NodeLandsHead(faces, offset, i);
    } else {
      assert faces[1..][k - 1] == faces[k];
      TriangulateNodeAt(faces[1..], offset + NodeCount(faces[0]), k - 1, i);
      NodeLandsTail(faces, offset, k, i);
    }
  }

  lemma NodeLandsHead(faces: seq<Face>, offset: nat, i: nat)
    requires 0 < |faces| && faces[0].triangulation.Some?
    requires i < |faces[0].triangulation.value.nodes|
    ensures NodeLands(faces, offset, 0, i)
  {
    var r := TriangulateFrom(faces, offset);
    var own := Coordinates(faces[0].triangulation.value.nodes);
    SkipHead(faces, offset);
    assert faces[..0] == [];
    CoordinatesAt(faces[0].triangulation.value.nodes, i);
    assert r.0[3 * i] == own[3 * i];
    assert r.0[3 * i + 1] == own[3 * i + 1];
    assert r.0[3 * i + 2] == own[3 * i + 2];
  }

  lemma NodeLandsTail(faces: seq<Face>, offset: nat, k: nat, i: nat)
    requires 0 < k < |faces| && faces[k].triangulation.Some?
    requires i < |faces[k].triangulation.value.nodes|
    requires faces[1..][k - 1] == faces[k]
    requires NodeLands(faces[1..], offset + NodeCount(faces[0]), k - 1, i)
    ensures NodeLands(faces, offset, k, i)
  {
    var r := TriangulateFrom(faces, offset);
    var rest := TriangulateFrom(faces[1..], offset + NodeCount(faces[0]));
    TotalsOfPrefix(faces, k);
    SkipHead(faces, offset);
    var skip := 3 * NodeCount(faces[0]);
    var at' := 3 * (TotalNodes(faces[1..][..k - 1]) + i);
    assert r.0[skip + at'] == rest.0[at'];
    assert r.0[skip + at' + 1] == rest.0[at' + 1];
    assert r.0[skip + at' + 2] == rest.0[at' + 2];
  }

  /** The buffers of a face loop are the first face's entries followed by
      those of the rest of the loop. */
  lemma SkipHead(faces: seq<Face>, offset: nat)
    requires faces != []
    ensures var r := TriangulateFrom(faces, offset);
      var rest := TriangulateFrom(faces[1..], offset + NodeCount(faces[0]));
      var f := faces[0];
      && r.0[3 * NodeCount(f)..] == rest.0
      && r.1[3 * TriangleCount(f)..] == rest.1
      && (f.triangulation.Some? ==>
            && r.0[..3 * NodeCount(f)] == Coordinates(f.triangulation.value.nodes)
            && r.1[..3 * TriangleCount(f)] == Renumber(f.triangulation.value.triangles, offset))
  {
    var rest := TriangulateFrom(faces[1..], offset + NodeCount(faces[0]));
    match faces[0].triangulation
    case None =>
    case Some(tr) =>
      var r := TriangulateFrom(faces, offset);
      assert r.0 == Coordinates(tr.nodes) + rest.0;
      assert r.1 == Renumber(tr.triangles, offset) + rest.1;
  }

  lemma TotalsOfPrefix(faces: seq<Face>, k: nat)
    requires 0 < |faces| && k <= |faces|
    ensures k > 0 ==> TotalNodes(faces[..k]) == NodeCount(faces[0]) + TotalNodes(faces[1..][..k - 1])
    ensures k > 0 ==> TotalTriangles(faces[..k]) == TriangleCount(faces[0]) + TotalTriangles(faces[1..][..k - 1])
  {
    if k > 0 {
      assert faces[..k][0] == faces[0];
      assert faces[..k][1..] == faces[1..][..k - 1];
    }
  }

  /** Global index `g` of the loop's buffers designates a node at `p`. */
  predicate CornerIs(r: (seq<real>, seq<int>), g: int, p: Point) {
    && 0 <= 3 * g && 3 * g + 2 < |r.0|
    && r.0[3 * g] == p.x && r.0[3 * g + 1] == p.y && r.0[3 * g + 2] == p.z
  }

  /** The offsets keep the geometry: corner `n` of triangle `t` of face `k`
      (1-based) becomes a global index whose coordinates are those of node
      `n - 1` of that face. */
  lemma TriangulateKeepsCorners(faces: seq<Face>, k: nat, t: nat)
    requires k < |faces| && faces[k].triangulation.Some?
    requires CornersInRange(faces[k])
    requires t < |faces[k].triangulation.value.triangles|
    ensures var r := TriangulateFrom(faces, 0);
      var tr := faces[k].triangulation.value;
      var at := 3 * (TotalTriangles(faces[..k]) + t);
      && at + 2 < |r.1|
      && CornerIs(r, r.1[at], tr.nodes[tr.triangles[t].n1 - 1])
      && CornerIs(r, r.1[at + 1], tr.nodes[tr.triangles[t].n2 - 1])
      && CornerIs(r, r.1[at + 2], tr.nodes[tr.triangles[t].n3 - 1])
  {
    var tr := faces[k].triangulation.value;
    TriangulateIndexAt(faces, 0, k, t);
    TriangulateNodeAt(faces, 0, k, tr.triangles[t].n1 - 1);
    TriangulateNodeAt(faces, 0, k, tr.triangles[t].n2 - 1);
    TriangulateNodeAt(faces, 0, k, tr.triangles[t].n3 - 1);
  }

  /** A face without triangulation, wherever it sits, changes nothing: it adds
      no buffer entries and does not advance the offset. */
  lemma {:induction false} UntriangulatedFaceIsInert(faces: seq<Face>, offset: nat, k: nat)
    requires k <= |faces|
    ensures TriangulateFrom(faces[..k] + [Face(None)] + faces[k..], offset) == TriangulateFrom(faces, offset)
    decreases k
  {
    if k == 0 {
      assert faces[..0] + [Face(None)] + faces[0..] == [Face(None)] + faces;
      NoneStep(faces, offset);
    } else {
      var tail := faces[1..];
      var tailWith := tail[..k - 1] + [Face(None)] + tail[k - 1..];
      var n := offset + NodeCount(faces[0]);
      InsertAfterHead(faces, Face(None), k);
      UntriangulatedFaceIsInert(tail, n, k - 1);
      ConsStep(faces[0], tailWith, offset);
      ConsStep(faces[0], tail, offset);
    }
  }

  lemma InsertAfterHead<T>(xs: seq<T>, x: T, k: nat)
    requires 0 < k <= |xs|
    ensures xs[..k] + [x] + xs[k..] == [xs[0]] + (xs[1..][..k - 1] + [x] + xs[1..][k - 1..])
    ensures xs == [xs[0]] + xs[1..]
  {
    assert xs[..k] == [xs[0]] + xs[1..][..k - 1];
    assert xs[k..] == xs[1..][k - 1..];
  }

  lemma NoneStep(a: seq<Face>, offset: nat)
    ensures TriangulateFrom([Face(None)] + a, offset) == TriangulateFrom(a, offset)
  {
    assert ([Face(None)] + a)[1..] == a;
  }

  lemma ConsStep(f: Face, a: seq<Face>, offset: nat)
    ensures TriangulateFrom([f] + a, offset) == Prepend(f, offset, TriangulateFrom(a, offset + NodeCount(f)))
  {
    assert ([f] + a)[0] == f && ([f] + a)[1..] == a;
  }

  /** `new Uint32Array(...)` on an integral number: reduction modulo 2^32. */
  function ToUint32(v: int): (r: nat)
    ensures r < 0x1_0000_0000
    ensures (v - r) % 0x1_0000_0000 == 0
    ensures 0 <= v < 0x1_0000_0000 ==> r == v
  {
    v % 0x1_0000_0000
  }

  /** `triangulate`: the buffers of the face loop, indices stored as 32-bit
      unsigned integers. */
  function Triangulate(faces: seq<Face>): (m: Mesh)
    ensures WellFormed(m)
    ensures |m.positions| == 3 * TotalNodes(faces)
    ensures |m.indices| == 3 * TotalTriangles(faces)
    ensures m.positions == TriangulateFrom(faces, 0).0
  {
    var r := TriangulateFrom(faces, 0);
    Mesh(r.0, seq(|r.1|, i requires 0 <= i < |r.1| => ToUint32(r.1[i])))
  }

  /** With well-numbered faces and fewer than 2^32 nodes the 32-bit store loses
      nothing, and every index designates one of the nodes. */
  lemma TriangulateIndicesValid(faces: seq<Face>)
    requires forall k :: 0 <= k < |faces| ==> CornersInRange(faces[k])
    requires TotalNodes(faces) <= 0x1_0000_0000
    ensures var m := Triangulate(faces);
      && |m.positions| == 3 * TotalNodes(faces)
      && m.indices == TriangulateFrom(faces, 0).1
      && forall i :: 0 <= i < |m.indices| ==> m.indices[i] < TotalNodes(faces)
  {
    TriangulateIndicesInRange(faces, 0);
  }

  /** The posted mesh keeps the geometry: with well-numbered faces and at most
      2^32 nodes, each corner of each triangle is stored as an index whose
      coordinates in the posted positions are those of the corner's own node. */
  lemma MeshKeepsCorners(faces: seq<Face>, k: nat, t: nat)
    requires forall j :: 0 <= j < |faces| ==> CornersInRange(faces[j])
    requires TotalNodes(faces) <= 0x1_0000_0000
    requires k < |faces| && faces[k].triangulation.Some? && CornersInRange(faces[k])
    requires t < |faces[k].triangulation.value.triangles|
    ensures var m := Triangulate(faces);
      var tr := faces[k].triangulation.value;
      var at := 3 * (TotalTriangles(faces[..k]) + t);
      && at + 2 < |m.indices|
      && CornerIs((m.positions, m.indices), m.indices[at], tr.nodes[tr.triangles[t].n1 - 1])
      && CornerIs((m.positions, m.indices), m.indices[at + 1], tr.nodes[tr.triangles[t].n2 - 1])
      && CornerIs((m.positions, m.indices), m.indices[at + 2], tr.nodes[tr.triangles[t].n3 - 1])
  {
    TriangulateIndicesValid(faces);
    TriangulateKeepsCorners(faces, k, t);
  }

  // ---------------------------------------------------------------------------
  // Edge pairs
  // ---------------------------------------------------------------------------

  /** The seen-key set and the kept pairs of the edge scan. */
  datatype Scan = Scan(seen: set<EdgeKey>, pairs: seq<Pair>)

  /** The scan's `push`: keep the pair unless its unordered key was seen. */
  function Push(st: Scan, p: Pair): Scan {
    if Key(p) in st.seen then st else Scan(st.seen + {Key(p)}, st.pairs + [p])
  }

  lemma PushStep(c: seq<Pair>, n: nat)
    requires n < |c|
    ensures Push(Scan(KeySet(c[..n]), FirstOccurrences(c[..n])), c[n])
      == Scan(KeySet(c[..n + 1]), FirstOccurrences(c[..n + 1]))
  {
    assert c[..n + 1] == c[..n] + [c[n]];
    ExtendFirstOccurrences(c[..n], c[n]);
  }

  /** The scan state after the first `n` candidates. */
  predicate ScannedTo(c: seq<Pair>, n: nat, st: Scan)
    requires n <= |c|
  {
    st == Scan(KeySet(c[..n]), FirstOccurrences(c[..n]))
  }

  /** Pushing the three sides of the triangle at `i` advances the scan by
      three candidates. */
  lemma TriangleStep(indices: seq<nat>, i: nat, st: Scan)
    requires |indices| % 3 == 0 && i % 3 == 0 && i + 3 <= |indices|
    requires ScannedTo(Candidates(indices), i, st)
    ensures ScannedTo(Candidates(indices), i + 3,
      Push(Push(Push(st, Pair(indices[i], indices[i + 1])),
        Pair(indices[i + 1], indices[i + 2])), Pair(indices[i + 2], indices[i])))
  {
    var c := Candidates(indices);
    CandidatesAt(indices, i / 3);
    PushStep(c, i);
    PushStep(c, i + 1);
    PushStep(c, i + 2);
  }

  /** `extractEdgePairs`: one linear scan over the triangles. */
  method ExtractEdgePairs(indices: seq<nat>) returns (pairs: seq<Pair>)
    requires |indices| % 3 == 0
    ensures pairs == EdgePairs(indices)
  {
    ghost var c := Candidates(indices);
    var st := Scan({}, []);
    var i := 0;
    while i < |indices|
      invariant 0 <= i <= |indices| && i % 3 == 0
      invariant ScannedTo(c, i, st)
    {
      var i0, i1, i2 := indices[i], indices[i + 1], indices[i + 2];
      TriangleStep(indices, i, st);
      st := Push(Push(Push(st, Pair(i0, i1)), Pair(i1, i2)), Pair(i2, i0));
      i := i + 3;
    }
    assert c[..i] == c;
    pairs := st.pairs;
  }

  // ---------------------------------------------------------------------------
  // One request
  // ---------------------------------------------------------------------------

  /** `handleCad`: the response to one request, echoing its version. */
  function HandleCad(k: Kernel, req: CadIn): (out: CadOut)
    ensures out.version == req.version
  {
    if |req.operations| == 0 then CadOut(req.version, None, None, None)
    else
      match BuildFrom(k, Empty, req.operations)
      case Err(msg) => CadOut(req.version, None, None, Some(msg))
      case Ok(shape) =>
        match k.triangulate(shape)
        case Err(msg) => CadOut(req.version, None, None, Some(msg))
        case Ok(faces) =>
          var mesh := Triangulate(faces);
          CadOut(req.version, Some(mesh), Some(EdgePairs(mesh.indices)), None)
  }

  /** No operations gives neither mesh nor edges nor error; otherwise the
      response carries either the error message or the mesh of the folded
      shape together with that mesh's edge pairs. */
  lemma HandleCadOutcome(k: Kernel, req: CadIn)
    ensures var out := HandleCad(k, req);
      && (|req.operations| == 0 <==> out.mesh.None? && out.edges.None? && out.error.None?)
      && (|req.operations| > 0 ==> (out.mesh.Some? <==> out.error.None?))
      && (out.mesh.Some? ==>
            && WellFormed(out.mesh.value)
            && out.edges == Some(EdgePairs(out.mesh.value.indices))
            && k.triangulate(Fold(req.operations)).Ok?
            && out.mesh.value == Triangulate(k.triangulate(Fold(req.operations)).value))
  {
  }

  /** The response is an error exactly when the kernel raised while folding or
      while triangulating. */
  lemma ErrorIffKernelRaised(k: Kernel, req: CadIn)
    requires |req.operations| > 0
    ensures HandleCad(k, req).error.Some? <==>
      (BuildFrom(k, Empty, req.operations).Err?
       || k.triangulate(BuildFrom(k, Empty, req.operations).value).Err?)
  {
  }

  // ---------------------------------------------------------------------------
  // The worker's life cycle
  // ---------------------------------------------------------------------------

  /** `oc` is null while initializing; requests then wait in `queue`. */
  datatype WorkerState = Initializing(queue: seq<CadIn>) | Ready

  /** What the worker posts: the readiness signal or a response. */
  datatype Posted = ReadySignal | Response(out: CadOut)

  /** What reaches the worker: a request, or the kernel promise resolving. */
  datatype Event = Message(req: CadIn) | KernelLoaded

  /** Handles requests one after the other, each to completion. */
  function HandleAll(k: Kernel, reqs: seq<CadIn>): (r: seq<Posted>)
    ensures |r| == |reqs|
    decreases |reqs|
  {
    if reqs == [] then [] else [Response(HandleCad(k, reqs[0]))] + HandleAll(k, reqs[1..])
  }

  /** Answering a batch answers each request in place. */
  lemma {:induction false} HandleAllAt(k: Kernel, reqs: seq<CadIn>)
    ensures forall i :: 0 <= i < |reqs| ==> HandleAll(k, reqs)[i] == Response(HandleCad(k, reqs[i]))
    decreases |reqs|
  {
    if reqs != [] {
      HandleAllAt(k, reqs[1..]);
      forall i | 0 <= i < |reqs|
        ensures HandleAll(k, reqs)[i] == Response(HandleCad(k, reqs[i]))
      {
        if i > 0 {
          assert HandleAll(k, reqs)[i] == HandleAll(k, reqs[1..])[i - 1];
        }
      }
    }
  }

  lemma {:induction false} HandleAllAppend(k: Kernel, a: seq<CadIn>, b: seq<CadIn>)
    ensures HandleAll(k, a + b) == HandleAll(k, a) + HandleAll(k, b)
    decreases |a|
  {
    if a == [] {
      assert a + b == b;
    } else {
      assert (a + b)[0] == a[0];
      assert (a + b)[1..] == a[1..] + b;
      HandleAllAppend(k, a[1..], b);
    }
  }

  /** One event. The kernel promise resolves once, so `KernelLoaded` only
      arrives while initializing: it posts the signal, then flushes the queue
      in arrival order. */
  function Step(k: Kernel, st: WorkerState, e: Event): (WorkerState, seq<Posted>)
    requires e.KernelLoaded? ==> st.Initializing?
  {
    match e
    case Message(req) =>
      if st.Initializing? then (Initializing(st.queue + [req]), [])
      else (Ready, [Response(HandleCad(k, req))])
    case KernelLoaded => (Ready, [ReadySignal] + HandleAll(k, st.queue))
  }

  function Loads(events: seq<Event>): nat
    decreases |events|
  {
    if events == [] then 0 else (if events[0].KernelLoaded? then 1 else 0) + Loads(events[1..])
  }

  /** The requests of a trace, in arrival order. */
  function Requests(events: seq<Event>): seq<CadIn>
    decreases |events|
  {
    if events == [] then []
    else (if events[0].Message? then [events[0].req] else []) + Requests(events[1..])
  }

  /** The state reached and everything posted along a trace of events. */
  function Run(k: Kernel, st: WorkerState, events: seq<Event>): (WorkerState, seq<Posted>)
    requires Loads(events) <= (if st.Initializing? then 1 else 0)
    decreases |events|
  {
    if events == [] then (st, [])
    else
      var first := Step(k, st, events[0]);
      var rest := Run(k, first.0, events[1..]);
      (rest.0, first.1 + rest.1)
  }

  lemma {:induction false} RunWhileReady(k: Kernel, events: seq<Event>)
    requires Loads(events) == 0
    ensures Run(k, Ready, events) == (Ready, HandleAll(k, Requests(events)))
    decreases |events|
  {
    if events != [] {
      RunWhileReady(k, events[1..]);
      var e := events[0];
      assert e.Message?;
      HandleAllAppend(k, [e.req], Requests(events[1..]));
    }
  }

  /** The state and the output of a run while initializing, as one predicate. */
  predicate InitializingOutcome(k: Kernel, q: seq<CadIn>, events: seq<Event>, r: (WorkerState, seq<Posted>)) {
    && (Loads(events) == 0 ==> r == (Initializing(q + Requests(events)), []))
    && (Loads(events) == 1 ==> r == (Ready, [ReadySignal] + HandleAll(k, q + Requests(events))))
  }

  lemma {:induction false} RunWhileInitializing(k: Kernel, q: seq<CadIn>, events: seq<Event>)
    requires Loads(events) <= 1
    ensures InitializingOutcome(k, q, events, Run(k, Initializing(q), events))
    decreases |events|
  {
    if events == [] {
      assert q + [] == q;
    } else if events[0].Message? {
      QueueOneMore(k, q, events);
    } else {
      LoadNow(k, q, events);
    }
  }

  lemma {:induction false} QueueOneMore(k: Kernel, q: seq<CadIn>, events: seq<Event>)
    requires Loads(events) <= 1 && events != [] && events[0].Message?
    ensures InitializingOutcome(k, q, events, Run(k, Initializing(q), events))
    decreases |events|, 0
  {
    var req := events[0].req;
    var tail := events[1..];
    assert Loads(tail) == Loads(events);
    assert Requests(events) == [req] + Requests(tail);
    var rest := Run(k, Initializing(q + [req]), tail);
    assert Run(k, Initializing(q), events) == (rest.0, [] + rest.1);
    assert [] + rest.1 == rest.1;
    RunWhileInitializing(k, q + [req], tail);
    assert q + [req] + Requests(tail) == q + Requests(events);
  }

  lemma LoadNow(k: Kernel, q: seq<CadIn>, events: seq<Event>)
    requires Loads(events) <= 1 && events != [] && events[0].KernelLoaded?
    ensures InitializingOutcome(k, q, events, Run(k, Initializing(q), events))
  {
    var tail := events[1..];
    assert Loads(tail) == 0;
    assert Requests(events) == Requests(tail);
    RunWhileReady(k, tail);
    HandleAllAppend(k, q, Requests(tail));
    var first := Step(k, Initializing(q), events[0]);
    assert first == (Ready, [ReadySignal] + HandleAll(k, q));
    var rest := Run(k, Ready, tail);
    assert rest == (Ready, HandleAll(k, Requests(tail)));
    assert Run(k, Initializing(q), events) == (rest.0, first.1 + rest.1);
    assert first.1 + rest.1 == [ReadySignal] + HandleAll(k, q + Requests(events));
  }

  /** The worker's contract over any trace starting from its creation. Before
      the kernel loads nothing is posted and the requests wait in arrival order.
      After it loads, the readiness signal comes first, then exactly one
      response per request, in arrival order, each echoing its request's
      version. */
  lemma WorkerTrace(k: Kernel, events: seq<Event>)
    requires Loads(events) <= 1
    ensures var r := Run(k, Initializing([]), events);
      var reqs := Requests(events);
      && (Loads(events) == 0 ==> r.0 == Initializing(reqs) && r.1 == [])
      && (Loads(events) == 1 ==>
            && r.0 == Ready
            && |r.1| == |reqs| + 1
            && r.1[0] == ReadySignal
            && forall i :: 0 <= i < |reqs| ==>
                 r.1[i + 1].Response?
                 && r.1[i + 1].out == HandleCad(k, reqs[i])
                 && r.1[i + 1].out.version == reqs[i].version)
  {
    RunWhileInitializing(k, [], events);
    assert [] + Requests(events) == Requests(events);
    HandleAllAt(k, Requests(events));
  }
}
