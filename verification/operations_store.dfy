/** The operation history with its undo/redo index
    (src/store/operationsStore.ts). Each action of the store is a pure function
    from the state before it to the state after it. */
module OperationsStore {
  import opened Wrappers
  import opened Operations

  /** `index` is the position of the last active operation; -1 means that no
      operation is active. */
  datatype History = History(ops: seq<Operation>, index: int)

  /** The store invariant: the history index designates an existing operation, or -1. */
  predicate Valid(s: History) {
    -1 <= s.index <= |s.ops| - 1
  }

  /** The state the store is created with. */
  const Initial: History := History([], -1)

  lemma InitialIsValid()
    ensures Valid(Initial)
  {
  }

  /** `addOp`: cut the redo branch (everything after the history index), append the
      operation under the identifier supplied by the id generator, and point
      at it. */
  function AddOp(s: History, body: OpBody, id: OpId): (r: History)
    requires Valid(s)
    ensures Valid(r)
    ensures |r.ops| == s.index + 2
    ensures forall j :: 0 <= j <= s.index ==> r.ops[j] == s.ops[j]
    ensures r.ops[s.index + 1] == Operation(id, body)
    ensures r.index == |r.ops| - 1
  {
    var kept := if s.index < |s.ops| - 1 then s.ops[..s.index + 1] else s.ops;
    History(kept + [Operation(id, body)], s.index + 1)
  }

  /** `findIndex`: the position of the first operation carrying `id`; `None`
      plays the role of -1. */
  function FindIndex(ops: seq<Operation>, id: OpId): (r: Option<nat>)
    ensures r.Some? ==> r.value < |ops| && ops[r.value].id == id
    ensures r.Some? ==> forall j :: 0 <= j < r.value ==> ops[j].id != id
    ensures r.None? ==> forall j :: 0 <= j < |ops| ==> ops[j].id != id
  {
    if ops == [] then None
    else if ops[0].id == id then Some(0)
    else
      match FindIndex(ops[1..], id)
      case Some(i) => Some(i + 1)
      case None => None
  }

  /** `removeOp`: drop the first operation carrying `id`; when it was active
      the history index moves down by one. An unknown id changes nothing. */
  function RemoveOp(s: History, id: OpId): (r: History)
    requires Valid(s)
    ensures Valid(r)
    ensures FindIndex(s.ops, id).None? ==> r == s
    ensures FindIndex(s.ops, id).Some? ==>
      var i := FindIndex(s.ops, id).value;
      && |r.ops| == |s.ops| - 1
      && (forall j :: 0 <= j < i ==> r.ops[j] == s.ops[j])
      && (forall j :: i <= j < |r.ops| ==> r.ops[j] == s.ops[j + 1])
      && (i <= s.index ==> r.index == s.index - 1)
      && (i > s.index ==> r.index == s.index)
  {
    match FindIndex(s.ops, id)
    case None => s
    case Some(i) =>
      var ops := s.ops[..i] + s.ops[i + 1..];
      History(ops, if s.index >= i then s.index - 1 else s.index)
  }

  /** A partial operation: each present field overwrites the field of the same
      name. `depth` may be patched to a value or explicitly to `undefined`. */
  datatype Patch = Patch(
    id: Option<OpId>,
    w: Option<real>, h: Option<real>, t: Option<real>,
    x: Option<real>, y: Option<real>,
    cx: Option<real>, cy: Option<real>, r: Option<real>,
    depth: Option<Option<real>>)

  const EmptyPatch: Patch :=
    Patch(None, None, None, None, None, None, None, None, None, None)

  predicate SameKind(a: OpBody, b: OpBody) {
    && (a.Resize? <==> b.Resize?)
    && (a.RectCut? <==> b.RectCut?)
    && (a.CircleCut? <==> b.CircleCut?)
  }

  /** One field after `Object.assign`: the patched value when the patch
      carries the field, the previous value otherwise. */
  predicate Assigned<T(==)>(patched: Option<T>, before: T, after: T) {
    match patched
    case Some(v) => after == v
    case None => after == before
  }

  /** `Object.assign(op, patch)`, restricted to the fields the operation's kind owns. */
  function ApplyPatch(op: Operation, p: Patch): (r: Operation)
    ensures Assigned(p.id, op.id, r.id)
    ensures SameKind(r.body, op.body)
    ensures op.body.Resize? ==>
      && Assigned(p.w, op.body.w, r.body.w)
      && Assigned(p.h, op.body.h, r.body.h)
      && Assigned(p.t, op.body.t, r.body.t)
    ensures op.body.RectCut? ==>
      && Assigned(p.x, op.body.x, r.body.x)
      && Assigned(p.y, op.body.y, r.body.y)
      && Assigned(p.w, op.body.w, r.body.w)
      && Assigned(p.h, op.body.h, r.body.h)
      && Assigned(p.depth, op.body.depth, r.body.depth)
    ensures op.body.CircleCut? ==>
      && Assigned(p.cx, op.body.cx, r.body.cx)
      && Assigned(p.cy, op.body.cy, r.body.cy)
      && Assigned(p.r, op.body.r, r.body.r)
      && Assigned(p.depth, op.body.depth, r.body.depth)
    ensures op.body.Unsupported? ==> r.body == op.body
  {
    var body := match op.body
      case Resize(w, h, t) =>
        Resize(p.w.GetOr(w), p.h.GetOr(h), p.t.GetOr(t))
      case RectCut(x, y, w, h, d) =>
        RectCut(p.x.GetOr(x), p.y.GetOr(y), p.w.GetOr(w), p.h.GetOr(h), p.depth.GetOr(d))
      case CircleCut(cx, cy, rad, d) =>
        CircleCut(p.cx.GetOr(cx), p.cy.GetOr(cy), p.r.GetOr(rad), p.depth.GetOr(d))
      case Unsupported(k) => Unsupported(k);
    Operation(p.id.GetOr(op.id), body)
  }

  lemma EmptyPatchIsIdentity(op: Operation)
    ensures ApplyPatch(op, EmptyPatch) == op
  {
  }

  /** Assigning the same fields twice is the same as assigning them once. */
  lemma PatchIsIdempotent(op: Operation, p: Patch)
    ensures ApplyPatch(ApplyPatch(op, p), p) == ApplyPatch(op, p)
  {
  }

  /** `updateOp`: patch the first operation carrying `id` in place. Neither the
      length nor the history index changes; the patch may rewrite the id itself. */
  function UpdateOp(s: History, id: OpId, p: Patch): (r: History)
    requires Valid(s)
    ensures Valid(r)
    ensures |r.ops| == |s.ops| && r.index == s.index
    ensures FindIndex(s.ops, id).None? ==> r == s
    ensures FindIndex(s.ops, id).Some? ==>
      var i := FindIndex(s.ops, id).value;
      && r.ops[i] == ApplyPatch(s.ops[i], p)
      && (forall j :: 0 <= j < |s.ops| && j != i ==> r.ops[j] == s.ops[j])
  {
    match FindIndex(s.ops, id)
    case None => s
    case Some(i) => History(s.ops[i := ApplyPatch(s.ops[i], p)], s.index)
  }

  /** Where `splice` starts for a requested position `k` in an array of length
      `len`: negative positions count from the end, and both ends clamp. */
  function SpliceIndex(k: int, len: nat): (r: nat)
    ensures r <= len
    ensures 0 <= k <= len ==> r == k
    ensures -(len as int) <= k < 0 ==> r == len + k
    ensures k < -(len as int) ==> r == 0
    ensures k > len ==> r == len
  {
    if k < 0 then (if len + k < 0 then 0 else len + k)
    else if k > len then len
    else k
  }

  /** `reorderOps`: take out the element at `start` and insert it at `end` of
      the shortened array, both positions normalised as `splice` does. The
      history index is left where it was. */
  function ReorderOps(s: History, start: int, end: int): (r: History)
    requires Valid(s)
    requires 0 < |s.ops| && start < |s.ops|
    ensures Valid(r)
    ensures r.index == s.index
    ensures |r.ops| == |s.ops|
    ensures multiset(r.ops) == multiset(s.ops)
    ensures r.ops[SpliceIndex(end, |s.ops| - 1)] == s.ops[SpliceIndex(start, |s.ops|)]
    ensures var i := SpliceIndex(start, |s.ops|);
      var j := SpliceIndex(end, |s.ops| - 1);
      r.ops[..j] + r.ops[j + 1..] == s.ops[..i] + s.ops[i + 1..]
  {
    var i := SpliceIndex(start, |s.ops|);
    var rest := s.ops[..i] + s.ops[i + 1..];
    var j := SpliceIndex(end, |rest|);
    MoveIsPermutation(s.ops, i, j);
    MoveKeepsOrder(s.ops, i, j);
    var ops := rest[..j] + [s.ops[i]] + rest[j..];
    History(ops, s.index)
  }

  /** Taking element `i` out and inserting it at `j` keeps every element. */
  lemma MoveIsPermutation<T>(xs: seq<T>, i: nat, j: nat)
    requires i < |xs| && j <= |xs| - 1
    ensures var rest := xs[..i] + xs[i + 1..];
      multiset(rest[..j] + [xs[i]] + rest[j..]) == multiset(xs)
  {
    var rest := xs[..i] + xs[i + 1..];
    calc {
      multiset(rest[..j] + [xs[i]] + rest[j..]);
      multiset(rest[..j]) + multiset{xs[i]} + multiset(rest[j..]);
      { assert rest == rest[..j] + rest[j..]; }
      multiset(rest) + multiset{xs[i]};
      multiset(xs[..i]) + multiset(xs[i + 1..]) + multiset{xs[i]};
      { assert xs == xs[..i] + [xs[i]] + xs[i + 1..]; }
      multiset(xs);
    }
  }

  /** Taking element `i` out and inserting it at `j` puts it at `j` and keeps
      the other elements in their order. */
  lemma MoveKeepsOrder<T>(xs: seq<T>, i: nat, j: nat)
    requires i < |xs| && j <= |xs| - 1
    ensures var rest := xs[..i] + xs[i + 1..];
      var ys := rest[..j] + [xs[i]] + rest[j..];
      |ys| == |xs| && ys[j] == xs[i] && ys[..j] + ys[j + 1..] == rest
  {
    var rest := xs[..i] + xs[i + 1..];
    var ys := rest[..j] + [xs[i]] + rest[j..];
    assert ys[..j] == rest[..j];
    assert ys[j + 1..] == rest[j..];
    assert rest[..j] + rest[j..] == rest;
  }

  /** A start before the beginning clamps to the first operation:
      `[A,B,C]` reordered from -5 to 2 is `[B,C,A]`. */
  lemma FarNegativeStartMovesFirst(a: Operation, b: Operation, c: Operation, index: int)
    requires -1 <= index <= 2
    ensures ReorderOps(History([a, b, c], index), -5, 2) == History([b, c, a], index)
  {
    var ops := [a, b, c];
    var rest := ops[..0] + ops[1..];
    assert ReorderOps(History(ops, index), -5, 2) == History(rest[..2] + [ops[0]] + rest[2..], index);
    FirstToLast(ops);
  }

  lemma FirstToLast<T>(xs: seq<T>)
    requires |xs| == 3
    ensures var rest := xs[..0] + xs[1..];
      rest[..2] + [xs[0]] + rest[2..] == [xs[1], xs[2], xs[0]]
  {
    var rest := xs[..0] + xs[1..];
    assert rest == [xs[1], xs[2]];
  }

  /** Moving an element back to the slot it came from restores the history. */
  lemma {:induction false} ReorderRoundTrip(s: History, i: nat, j: nat)
    requires Valid(s)
    requires i < |s.ops| && j < |s.ops|
    ensures ReorderOps(ReorderOps(s, i, j), j, i) == s
  {
    var rest := s.ops[..i] + s.ops[i + 1..];
    var once := rest[..j] + [s.ops[i]] + rest[j..];
    assert ReorderOps(s, i, j).ops == once;
    var rest' := once[..j] + once[j + 1..];
    assert once[..j] == rest[..j];
    assert once[j + 1..] == rest[j..];
    assert rest' == rest;
    assert rest[..i] == s.ops[..i];
    assert rest[i..] == s.ops[i + 1..];
    assert rest[..i] + [s.ops[i]] + rest[i..] == s.ops;
  }

  /** `undo`: move the history index down by one unless nothing is active. */
  function Undo(s: History): (r: History)
    requires Valid(s)
    ensures Valid(r) && r.ops == s.ops
    ensures s.index >= 0 ==> r.index == s.index - 1
    ensures s.index == -1 ==> r == s
  {
    if s.index >= 0 then s.(index := s.index - 1) else s
  }

  /** `redo`: move the history index up by one unless the last operation is active. */
  function Redo(s: History): (r: History)
    requires Valid(s)
    ensures Valid(r) && r.ops == s.ops
    ensures s.index < |s.ops| - 1 ==> r.index == s.index + 1
    ensures s.index == |s.ops| - 1 ==> r == s
  {
    if s.index < |s.ops| - 1 then s.(index := s.index + 1) else s
  }

  /** `reset`: forget the whole history. */
  function Reset(s: History): (r: History)
    ensures Valid(r) && r.ops == [] && r.index == -1
  {
    Initial
  }

  lemma RedoAfterUndo(s: History)
    requires Valid(s) && s.index >= 0
    ensures Redo(Undo(s)) == s
  {
  }

  lemma UndoAfterRedo(s: History)
    requires Valid(s) && s.index < |s.ops| - 1
    ensures Undo(Redo(s)) == s
  {
  }

  /** From `[A,B,C]` with the history index on C, two undos and one add leave `[A,D]`
      with the history index on D: the redo branch B, C is lost. */
  lemma RedoBranchIsLost(a: Operation, b: Operation, c: Operation, d: OpBody, id: OpId)
    ensures var s := Undo(Undo(History([a, b, c], 2)));
      s.index == 0 && AddOp(s, d, id) == History([a, Operation(id, d)], 1)
  {
    var s := Undo(Undo(History([a, b, c], 2)));
    assert s == History([a, b, c], 0);
    assert [a, b, c][..1] == [a];
  }
}
