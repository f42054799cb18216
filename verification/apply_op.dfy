/** One step of the shape fold (src/engine/applyOp.ts). Kernel shapes are
    represented by the term of kernel calls that built them; `Contains` reads a
    term as the set of points it occupies, which is what the contracts below
    speak about. */
module ShapeBuilder {
  import opened Wrappers
  import opened Operations

  /** Terms over the kernel constructors the shape builder calls. */
  datatype Shape =
    | Empty                                        // new TopoDS_Shape()
    | Box(dx: real, dy: real, dz: real)            // box with a corner at the origin
    | Cylinder(radius: real, height: real)         // axis along Z, base at the origin
    | Translate(shape: Shape, tx: real, ty: real, tz: real)
    | Cut(base: Shape, tool: Shape)                // boolean subtraction

  datatype Point = Point(x: real, y: real, z: real)

  /** The points a shape occupies, primitives taken as closed solids. */
  predicate Contains(s: Shape, p: Point) {
    match s
    case Empty => false
    case Box(dx, dy, dz) => 0.0 <= p.x <= dx && 0.0 <= p.y <= dy && 0.0 <= p.z <= dz
    case Cylinder(r, height) => p.x * p.x + p.y * p.y <= r * r && 0.0 <= p.z <= height
    case Translate(inner, tx, ty, tz) => Contains(inner, Point(p.x - tx, p.y - ty, p.z - tz))
    case Cut(a, b) => Contains(a, p) && !Contains(b, p)
  }

  /** The depth used when a cut gives none: far beyond any panel thickness. */
  const ThroughDepth: real := 1000000.0

  /** `depth ?? 1e6`: only an absent depth falls back; 0 is used as given. */
  function HoleDepth(depth: Option<real>): real {
    depth.GetOr(ThroughDepth)
  }

  /** The axis-aligned block `[x0, x0+w] x [y0, y0+h] x [0, d]`. */
  predicate InBlock(p: Point, x0: real, y0: real, w: real, h: real, d: real) {
    x0 <= p.x <= x0 + w && y0 <= p.y <= y0 + h && 0.0 <= p.z <= d
  }

  /** The upright cylinder of radius `r` on centre `(cx, cy)`, from z = 0 to z = d. */
  predicate InDisc(p: Point, cx: real, cy: real, r: real, d: real) {
    (p.x - cx) * (p.x - cx) + (p.y - cy) * (p.y - cy) <= r * r && 0.0 <= p.z <= d
  }

  lemma BlockTool(x: real, y: real, w: real, h: real, d: real)
    ensures forall p :: Contains(Translate(Box(w, h, d), x, y, 0.0), p) <==> InBlock(p, x, y, w, h, d)
  {
    forall p
      ensures Contains(Translate(Box(w, h, d), x, y, 0.0), p) <==> InBlock(p, x, y, w, h, d)
    {
      assert Contains(Translate(Box(w, h, d), x, y, 0.0), p)
        == Contains(Box(w, h, d), Point(p.x - x, p.y - y, p.z - 0.0));
    }
  }

  lemma DiscTool(cx: real, cy: real, r: real, d: real)
    ensures forall p :: Contains(Translate(Cylinder(r, d), cx, cy, 0.0), p) <==> InDisc(p, cx, cy, r, d)
  {
    forall p
      ensures Contains(Translate(Cylinder(r, d), cx, cy, 0.0), p) <==> InDisc(p, cx, cy, r, d)
    {
      assert Contains(Translate(Cylinder(r, d), cx, cy, 0.0), p)
        == Contains(Cylinder(r, d), Point(p.x - cx, p.y - cy, p.z - 0.0));
    }
  }

  /** `applyOp`: a resize replaces the shape by a fresh box, a cut removes a
      block or cylinder standing on z = 0, and an unsupported kind leaves the
      shape as it was. */
  function ApplyOp(s: Shape, op: OpBody): (r: Shape)
    ensures op.Resize? ==>
      forall p :: Contains(r, p) <==> InBlock(p, 0.0, 0.0, op.w, op.h, op.t)
    ensures op.RectCut? ==>
      forall p :: Contains(r, p) <==>
        Contains(s, p) && !InBlock(p, op.x, op.y, op.w, op.h, HoleDepth(op.depth))
    ensures op.CircleCut? ==>
      forall p :: Contains(r, p) <==>
        Contains(s, p) && !InDisc(p, op.cx, op.cy, op.r, HoleDepth(op.depth))
    ensures op.Unsupported? ==> r == s
  {
    match op
    case Resize(w, h, t) => Box(w, h, t)
    case RectCut(x, y, w, h, depth) =>
      BlockTool(x, y, w, h, HoleDepth(depth));
      Cut(s, Translate(Box(w, h, HoleDepth(depth)), x, y, 0.0))
    case CircleCut(cx, cy, rad, depth) =>
      DiscTool(cx, cy, rad, HoleDepth(depth));
      Cut(s, Translate(Cylinder(rad, HoleDepth(depth)), cx, cy, 0.0))
    case Unsupported(_) => s
  }

  /** A resize discards whatever it is applied to. */
  lemma ResizeIgnoresInput(s1: Shape, s2: Shape, op: OpBody)
    requires op.Resize?
    ensures ApplyOp(s1, op) == ApplyOp(s2, op)
  {
  }

  /** A rectangular cut without a depth removes the whole column above its
      footprint from any panel at most 1e6 mm thick. */
  lemma DefaultRectCutGoesThrough(w: real, h: real, t: real, op: OpBody, p: Point)
    requires t <= ThroughDepth
    requires op.RectCut? && op.depth.None?
    requires op.x <= p.x <= op.x + op.w && op.y <= p.y <= op.y + op.h
    ensures !Contains(ApplyOp(Box(w, h, t), op), p)
  {
  }

  /** The same for a circular cut without a depth. */
  lemma DefaultCircleCutGoesThrough(w: real, h: real, t: real, op: OpBody, p: Point)
    requires t <= ThroughDepth
    requires op.CircleCut? && op.depth.None?
    requires (p.x - op.cx) * (p.x - op.cx) + (p.y - op.cy) * (p.y - op.cy) <= op.r * op.r
    ensures !Contains(ApplyOp(Box(w, h, t), op), p)
  {
  }

  /** An explicit depth, 0 included, is taken as given: material of the panel
      above that depth survives the cut. */
  lemma ExplicitDepthKeepsMaterialAbove(w: real, h: real, t: real, op: OpBody, p: Point)
    requires op.RectCut? && op.depth.Some?
    requires InBlock(p, 0.0, 0.0, w, h, t) && op.depth.value < p.z
    ensures Contains(ApplyOp(Box(w, h, t), op), p)
  {
  }
}
