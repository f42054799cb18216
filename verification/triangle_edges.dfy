/** The wireframe edges of a triangle-index buffer, shared by the worker's
    `extractEdgePairs` (src/workers/occ.worker.ts) and the display-side
    `edgesFromIndices` (src/utils/edgesFromIndices.ts): every side of every
    triangle, an edge being kept only the first time its unordered endpoint
    pair is met. */
module TriangleEdges {
  import opened CadTypes

  /** The `"iMin-iMax"` string key both scans build, as the pair it encodes. */
  type EdgeKey = (nat, nat)

  function Key(p: Pair): EdgeKey {
    if p.a < p.b then (p.a, p.b) else (p.b, p.a)
  }

  /** The sides of triangle `(i0, i1, i2)` in the order the scans push them. */
  function Sides(i0: nat, i1: nat, i2: nat): seq<Pair> {
    [Pair(i0, i1), Pair(i1, i2), Pair(i2, i0)]
  }

  /** Every side of every triangle, triangle by triangle. */
  function Candidates(indices: seq<nat>): (c: seq<Pair>)
    requires |indices| % 3 == 0
    ensures |c| == |indices|
    decreases |indices|
  {
    if indices == [] then []
    else
      var n := |indices| - 3;
      Candidates(indices[..n]) + Sides(indices[n], indices[n + 1], indices[n + 2])
  }

  /** Triangle `t` contributes candidates `3t`, `3t+1` and `3t+2`. */
  lemma {:induction false} CandidatesAt(indices: seq<nat>, t: nat)
    requires |indices| % 3 == 0 && 3 * t + 2 < |indices|
    ensures var c := Candidates(indices);
      && c[3 * t] == Pair(indices[3 * t], indices[3 * t + 1])
      && c[3 * t + 1] == Pair(indices[3 * t + 1], indices[3 * t + 2])
      && c[3 * t + 2] == Pair(indices[3 * t + 2], indices[3 * t])
    decreases |indices|
  {
    var n := |indices| - 3;
    var front := indices[..n];
    assert Candidates(indices) == Candidates(front) + Sides(indices[n], indices[n + 1], indices[n + 2]);
    if 3 * t < n {
      CandidatesAt(front, t);
      assert front[3 * t] == indices[3 * t];
      assert front[3 * t + 1] == indices[3 * t + 1];
      assert front[3 * t + 2] == indices[3 * t + 2];
    }
  }

  /** No earlier candidate has the key of candidate `i`. */
  predicate IsFirst(c: seq<Pair>, i: nat)
    requires i < |c|
  {
    forall j :: 0 <= j < i ==> Key(c[j]) != Key(c[i])
  }

  /** The candidates that are first with their key, in candidate order. */
  function FirstOccurrences(c: seq<Pair>): (r: seq<Pair>)
    ensures |r| <= |c|
    decreases |c|
  {
    if c == [] then []
    else
      var n := |c| - 1;
      FirstOccurrences(c[..n]) + (if IsFirst(c, n) then [c[n]] else [])
  }

  function KeySet(c: seq<Pair>): set<EdgeKey> {
    set i | 0 <= i < |c| :: Key(c[i])
  }

  /** The edge pairs of a triangle-index buffer. */
  function EdgePairs(indices: seq<nat>): seq<Pair>
    requires |indices| % 3 == 0
  {
    FirstOccurrences(Candidates(indices))
  }

  /** One more candidate: it is kept exactly when its key is new. This is the
      step both scans take per side. */
  lemma ExtendFirstOccurrences(c: seq<Pair>, p: Pair)
    ensures FirstOccurrences(c + [p]) ==
      FirstOccurrences(c) + (if Key(p) in KeySet(c) then [] else [p])
    ensures KeySet(c + [p]) == KeySet(c) + {Key(p)}
  {
    var c' := c + [p];
    assert c'[..|c|] == c;
    if Key(p) in KeySet(c) {
      var j :| 0 <= j < |c| && Key(c[j]) == Key(p);
      assert c'[j] == c[j];
      assert !IsFirst(c', |c|);
    } else {
      forall j | 0 <= j < |c|
        ensures Key(c'[j]) != Key(c'[|c|])
      {
        assert c'[j] == c[j];
        assert Key(c[j]) in KeySet(c);
      }
      assert IsFirst(c', |c|);
    }
    assert KeySet(c') == KeySet(c) + {Key(p)} by {
      forall k | k in KeySet(c')
        ensures k in KeySet(c) + {Key(p)}
      {
        var i :| 0 <= i < |c'| && Key(c'[i]) == k;
        if i < |c| {
          assert c'[i] == c[i];
        }
      }
      forall k | k in KeySet(c)
        ensures k in KeySet(c')
      {
        var i :| 0 <= i < |c| && Key(c[i]) == k;
        assert c'[i] == c[i];
      }
      assert c'[|c|] == p;
    }
  }

  /** The kept edges carry exactly the keys of all candidates: every triangle
      side is represented, and nothing else is. */
  lemma {:induction false} FirstOccurrencesKeys(c: seq<Pair>)
    ensures KeySet(FirstOccurrences(c)) == KeySet(c)
    decreases |c|
  {
    if c != [] {
      var n := |c| - 1;
      var front := c[..n];
      assert c == front + [c[n]];
      FirstOccurrencesKeys(front);
      ExtendFirstOccurrences(front, c[n]);
      var r := FirstOccurrences(front);
      if Key(c[n]) !in KeySet(front) {
        assert FirstOccurrences(c) == r + [c[n]];
        ExtendFirstOccurrences(r, c[n]);
        assert KeySet(r + [c[n]]) == KeySet(r) + {Key(c[n])};
      } else {
        assert FirstOccurrences(c) == r;
        assert KeySet(c) == KeySet(front);
      }
    }
  }

  /** No two kept edges share their unordered endpoint pair. */
  lemma {:induction false} FirstOccurrencesDistinct(c: seq<Pair>)
    ensures forall i, j :: 0 <= i < j < |FirstOccurrences(c)| ==>
      Key(FirstOccurrences(c)[i]) != Key(FirstOccurrences(c)[j])
    decreases |c|
  {
    if c != [] {
      var n := |c| - 1;
      assert c == c[..n] + [c[n]];
      var r0 := FirstOccurrences(c[..n]);
      FirstOccurrencesDistinct(c[..n]);
      ExtendFirstOccurrences(c[..n], c[n]);
      if Key(c[n]) !in KeySet(c[..n]) {
        FirstOccurrencesKeys(c[..n]);
        var r := r0 + [c[n]];
        forall i, j | 0 <= i < j < |r|
          ensures Key(r[i]) != Key(r[j])
        {
          if j == |r0| {
            assert Key(r0[i]) in KeySet(r0);
          } else {
            assert r[i] == r0[i] && r[j] == r0[j];
          }
        }
      }
    }
  }

  /** Every kept edge is a candidate, in the orientation it was met. */
  lemma {:induction false} FirstOccurrencesAreCandidates(c: seq<Pair>)
    ensures forall p :: p in FirstOccurrences(c) ==> p in c
    decreases |c|
  {
    if c != [] {
      var n := |c| - 1;
      FirstOccurrencesAreCandidates(c[..n]);
      forall p | p in c[..n]
        ensures p in c
      {
        var i :| 0 <= i < n && c[..n][i] == p;
        assert c[i] == p;
      }
    }
  }

  /** Every candidate that is the first with its key is kept, with that
      candidate's orientation. */
  lemma {:induction false} FirstOccurrencesKeepFirsts(c: seq<Pair>)
    ensures forall j :: 0 <= j < |c| && IsFirst(c, j) ==> c[j] in FirstOccurrences(c)
    decreases |c|
  {
    if c != [] {
      var n := |c| - 1;
      var front := c[..n];
      FirstOccurrencesKeepFirsts(front);
      forall j | 0 <= j < |c| && IsFirst(c, j)
        ensures c[j] in FirstOccurrences(c)
      {
        if j < n {
          assert front[j] == c[j];
          assert IsFirst(front, j) by {
            forall k | 0 <= k < j
              ensures Key(front[k]) != Key(front[j])
            {
              assert front[k] == c[k];
            }
          }
        }
      }
    }
  }

  /** Triangle (0,1,2) gives exactly its three sides. */
  lemma SingleTriangleEdges()
    ensures EdgePairs([0, 1, 2]) == [Pair(0, 1), Pair(1, 2), Pair(2, 0)]
  {
    var one: seq<nat> := [0, 1, 2];
    assert one[..0] == [];
    var c := [Pair(0, 1), Pair(1, 2), Pair(2, 0)];
    assert Candidates(one) == c;
    ExtendFirstOccurrences([], c[0]);
    assert [] + [c[0]] == c[..1];
    ExtendFirstOccurrences(c[..1], c[1]);
    assert c[..1] + [c[1]] == c[..2];
    ExtendFirstOccurrences(c[..2], c[2]);
    assert c[..2] + [c[2]] == c;
  }

  lemma SharedSideCandidates()
    ensures Candidates([0, 1, 2, 1, 3, 2]) ==
      [Pair(0, 1), Pair(1, 2), Pair(2, 0), Pair(1, 3), Pair(3, 2), Pair(2, 1)]
  {
    var two: seq<nat> := [0, 1, 2, 1, 3, 2];
    assert two[..3][..0] == [];
    assert Candidates(two[..3]) == [Pair(0, 1), Pair(1, 2), Pair(2, 0)];
  }

  /** Candidates whose keys are pairwise distinct are all kept. */
  lemma {:induction false} DistinctKeysAllKept(c: seq<Pair>)
    requires forall i, j :: 0 <= i < j < |c| ==> Key(c[i]) != Key(c[j])
    ensures FirstOccurrences(c) == c
    decreases |c|
  {
    if c != [] {
      var n := |c| - 1;
      DistinctKeysAllKept(c[..n]);
      assert IsFirst(c, n);
      assert c[..n] + [c[n]] == c;
    }
  }

  /** Triangles (0,1,2) and (1,3,2) give five edges: the shared side (1,2) once. */
  lemma SharedSideEdges()
    ensures EdgePairs([0, 1, 2, 1, 3, 2]) ==
      [Pair(0, 1), Pair(1, 2), Pair(2, 0), Pair(1, 3), Pair(3, 2)]
  {
    var c := [Pair(0, 1), Pair(1, 2), Pair(2, 0), Pair(1, 3), Pair(3, 2), Pair(2, 1)];
    var five := [Pair(0, 1), Pair(1, 2), Pair(2, 0), Pair(1, 3), Pair(3, 2)];
    SharedSideCandidates();
    assert c == five + [Pair(2, 1)];
    DistinctKeysAllKept(five);
    ExtendFirstOccurrences(five, Pair(2, 1));
    assert Key(five[1]) == Key(Pair(2, 1));
    assert Key(Pair(2, 1)) in KeySet(five);
  }

  /** Position `i` of a position buffer; past its end a typed array reads NaN. */
  function At(positions: seq<real>, i: nat): Float {
    if i < |positions| then Finite(positions[i]) else NaN
  }

  /** Coordinates of both endpoints: `positions[3a..3a+2] ++ positions[3b..3b+2]`. */
  function Xyz(positions: seq<real>, p: Pair): seq<Float> {
    [At(positions, 3 * p.a), At(positions, 3 * p.a + 1), At(positions, 3 * p.a + 2),
     At(positions, 3 * p.b), At(positions, 3 * p.b + 1), At(positions, 3 * p.b + 2)]
  }

  /** The display form of an edge list: edge `i` gets id `i` and the
      coordinates of its endpoints. */
  function PairsToDTO(pairs: seq<Pair>, positions: seq<real>): (r: seq<EdgeDTO>)
    ensures |r| == |pairs|
    ensures forall i :: 0 <= i < |pairs| ==> r[i].id == i && r[i].xyz == Xyz(positions, pairs[i])
  {
    seq(|pairs|, i requires 0 <= i < |pairs| => EdgeDTO(i, Xyz(positions, pairs[i])))
  }

  /** One more pair appends one more record, numbered after the others. */
  lemma PairsToDTOAppend(pairs: seq<Pair>, p: Pair, positions: seq<real>)
    ensures PairsToDTO(pairs + [p], positions) == PairsToDTO(pairs, positions) + [EdgeDTO(|pairs|, Xyz(positions, p))]
  {
    var l, r := PairsToDTO(pairs + [p], positions), PairsToDTO(pairs, positions) + [EdgeDTO(|pairs|, Xyz(positions, p))];
    forall i | 0 <= i < |l| ensures l[i] == r[i] {
      if i < |pairs| {
        assert (pairs + [p])[i] == pairs[i];
      }
    }
  }
}
