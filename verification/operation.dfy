/** The parametric operations of the feature tree (src/models/Operation.ts).
    Lengths are millimetres, kept as reals. */
module Operations {
  import opened Wrappers

  /** Identifier assigned once by the store when an operation is added. */
  type OpId = string

  /** The payload of an operation, tagged by its kind. `Unsupported` stands for
      an object whose `type` tag is none of the three kinds: the TypeScript union
      excludes it, but the shape builder has a branch for it at run time. */
  datatype OpBody =
    | Resize(w: real, h: real, t: real)
    | RectCut(x: real, y: real, w: real, h: real, depth: Option<real>)
    | CircleCut(cx: real, cy: real, r: real, depth: Option<real>)
    | Unsupported(kind: string)

  datatype Operation = Operation(id: OpId, body: OpBody)
}
