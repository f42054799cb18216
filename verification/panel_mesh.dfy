/** The display state of src/hooks/usePanelMesh.ts and the decision its
    `send` callback takes on each settled response. The debounce that wraps
    the callback is timer behaviour and is not part of this model. */
module PanelMesh {
  import opened Wrappers
  import opened CadTypes
  import opened TriangleEdges
  import opened EdgesFromIndices

  /** The hook's two state cells; `None` is the initial `null`. */
  datatype View = View(mesh: Option<Mesh>, edges: Option<seq<EdgeDTO>>)

  /** `if (out.error)`: a string is truthy unless it is empty. */
  predicate Failed(out: CadOut) {
    out.error.Some? && out.error.value != ""
  }

  /** `out.edges?.length`: present and non-empty. */
  predicate HasEdges(out: CadOut) {
    out.edges.Some? && |out.edges.value| > 0
  }

  /** The edge pairs the view shows for a successful response: the worker's
      when it sent some, otherwise those recomputed from the index buffer. */
  function ShownPairs(out: CadOut): seq<Pair>
    requires out.mesh.Some? && WellFormed(out.mesh.value)
  {
    if HasEdges(out) then out.edges.value else EdgePairs(out.mesh.value.indices)
  }

  /** The `then` callback of `send`. An error or a missing mesh leaves the
      view as it was; otherwise the mesh is shown with the worker's edge pairs
      converted by `pairsToDTO`, or, failing those, with the edges the display
      side computes from the index buffer. */
  method OnResponse(view: View, out: CadOut) returns (view': View)
    requires out.mesh.Some? ==> WellFormed(out.mesh.value)
    ensures Failed(out) ==> view' == view
    ensures out.mesh.None? ==> view' == view
    ensures !Failed(out) && out.mesh.Some? ==>
      && view'.mesh == out.mesh
      && view'.edges == Some(PairsToDTO(ShownPairs(out), out.mesh.value.positions))
  {
    if Failed(out) {
      return view;
    }
    if out.mesh.None? {
      return view;
    }
    var mesh := out.mesh.value;
    var edges;
    if HasEdges(out) {
      edges := PairsToDTO(out.edges.value, mesh.positions);
    } else {
      edges := EdgesFromIndices.EdgesFromIndices(mesh.positions, mesh.indices);
    }
    view' := View(out.mesh, Some(edges));
  }
}
