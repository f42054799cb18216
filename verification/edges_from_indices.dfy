/** The display-side edge scan (src/utils/edgesFromIndices.ts): the same
    first-occurrence walk over the triangle sides as the worker's, producing
    the display records directly. A `Map` from key to edge id plays the part
    of the worker's key set. */
module EdgesFromIndices {
  import opened CadTypes
  import opened TriangleEdges

  /** `addEdge`: a side whose unordered key is new gets the next id and the
      coordinates of its endpoints, in the order the side names them. */
  method AddEdge(positions: seq<real>, seen: map<EdgeKey, nat>, edges: seq<EdgeDTO>, a: nat, b: nat)
    returns (seen': map<EdgeKey, nat>, edges': seq<EdgeDTO>)
    ensures Key(Pair(a, b)) in seen ==> seen' == seen && edges' == edges
    ensures Key(Pair(a, b)) !in seen ==>
      && seen' == seen[Key(Pair(a, b)) := |edges|]
      && edges' == edges + [EdgeDTO(|edges|, Xyz(positions, Pair(a, b)))]
  {
    var key := if a < b then (a, b) else (b, a);
    if key !in seen {
      var id := |edges|;
      seen' := seen[key := id];
      edges' := edges + [EdgeDTO(id, [At(positions, a * 3), At(positions, a * 3 + 1), At(positions, a * 3 + 2),
                                       At(positions, b * 3), At(positions, b * 3 + 1), At(positions, b * 3 + 2)])];
    } else {
      seen', edges' := seen, edges;
    }
  }

  /** The scan state after the first `n` sides of `c`. */
  predicate Walked(positions: seq<real>, c: seq<Pair>, n: nat, seen: map<EdgeKey, nat>, edges: seq<EdgeDTO>)
    requires n <= |c|
  {
    seen.Keys == KeySet(c[..n]) && edges == PairsToDTO(FirstOccurrences(c[..n]), positions)
  }

  /** Handling side `n` is one more step of the first-occurrence walk. */
  method AddSide(positions: seq<real>, ghost c: seq<Pair>, ghost n: nat, seen: map<EdgeKey, nat>, edges: seq<EdgeDTO>, a: nat, b: nat)
    returns (seen': map<EdgeKey, nat>, edges': seq<EdgeDTO>)
    requires n < |c| && c[n] == Pair(a, b)
    requires Walked(positions, c, n, seen, edges)
    ensures Walked(positions, c, n + 1, seen', edges')
  {
    Side(positions, c, n);
    seen', edges' := AddEdge(positions, seen, edges, a, b);
  }

  /** `edgesFromIndices`: every edge of the index buffer once, in first-seen
      order, numbered from 0, with the coordinates of its endpoints (`NaN` for
      a coordinate past the end of `positions`). */
  method EdgesFromIndices(positions: seq<real>, indices: seq<nat>) returns (edges: seq<EdgeDTO>)
    requires |indices| % 3 == 0
    ensures edges == PairsToDTO(EdgePairs(indices), positions)
  {
    ghost var c := Candidates(indices);
    var seen: map<EdgeKey, nat> := map[];
    edges := [];
    var i := 0;
    while i < |indices|
      invariant 0 <= i <= |indices| && i % 3 == 0
      invariant Walked(positions, c, i, seen, edges)
    {
      var i0, i1, i2 := indices[i], indices[i + 1], indices[i + 2];
      CandidatesAt(indices, i / 3);
      seen, edges := AddSide(positions, c, i, seen, edges, i0, i1);
      seen, edges := AddSide(positions, c, i + 1, seen, edges, i1, i2);
      seen, edges := AddSide(positions, c, i + 2, seen, edges, i2, i0);
      i := i + 3;
    }
    assert c[..i] == c;
  }

  /** Handling candidate `n` extends both the key set and the records exactly
      as one more step of the first-occurrence walk. */
  lemma Side(positions: seq<real>, c: seq<Pair>, n: nat)
    requires n < |c|
    ensures KeySet(c[..n + 1]) == KeySet(c[..n]) + {Key(c[n])}
    ensures PairsToDTO(FirstOccurrences(c[..n + 1]), positions) ==
      if Key(c[n]) in KeySet(c[..n]) then PairsToDTO(FirstOccurrences(c[..n]), positions)
      else PairsToDTO(FirstOccurrences(c[..n]), positions) + [EdgeDTO(|FirstOccurrences(c[..n])|, Xyz(positions, c[n]))]
  {
    assert c[..n + 1] == c[..n] + [c[n]];
    ExtendFirstOccurrences(c[..n], c[n]);
    PairsToDTOAppend(FirstOccurrences(c[..n]), c[n], positions);
  }
}
