/** Messages and buffers exchanged between the interactive side and the
    compute worker (src/engine/cadTypes.ts), and the display edge record. */
module CadTypes {
  import opened Wrappers
  import opened Operations

  /** One wireframe edge as a pair of vertex indices, in discovery orientation. */
  datatype Pair = Pair(a: nat, b: nat)

  /** Flat position buffer (x,y,z triplets) and flat triangle-index buffer. */
  datatype Mesh = Mesh(positions: seq<real>, indices: seq<nat>)

  /** A recompute request: the active operations and the version derived from them. */
  datatype CadIn = CadIn(operations: seq<Operation>, version: string)

  /** A recompute response. `None` stands for a field that is absent or `null`. */
  datatype CadOut = CadOut(
    version: string,
    mesh: Option<Mesh>,
    edges: Option<seq<Pair>>,
    error: Option<string>)

  /** An element of a `Float32Array`: reading a position past the end of the
      buffer yields `undefined`, which the typed array stores as NaN. */
  datatype Float = Finite(value: real) | NaN

  /** A display edge: its position in the edge list and both endpoints' coordinates. */
  datatype EdgeDTO = EdgeDTO(id: nat, xyz: seq<Float>)

  /** Buffers made of whole triplets, as the triangulation produces them. */
  predicate WellFormed(m: Mesh) {
    |m.positions| % 3 == 0 && |m.indices| % 3 == 0
  }
}
