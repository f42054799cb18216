/** The panel dimensions shown to the user: those of the last active resize
    (src/hooks/useCurrentPanelSize.ts). */
module CurrentPanelSize {
  import opened Wrappers
  import opened Operations
  import opened OperationsStore
  import opened CadInput

  datatype Dims = Dims(w: real, h: real, t: real)

  /** The fallback when no resize is active. */
  const DefaultDims: Dims := Dims(0.0, 0.0, 0.0)

  /** Position of the last resize at or before position `i`, scanning backwards
      as `findLast` does. Entries are distinct objects, so `indexOf` of an
      entry is its own position. */
  function LastResizeUpTo(ops: seq<Operation>, i: int): (r: Option<nat>)
    requires i < |ops|
    ensures r.Some? ==> r.value <= i && ops[r.value].body.Resize?
    ensures r.Some? ==> forall j :: r.value < j <= i ==> !ops[j].body.Resize?
    ensures r.None? ==> forall j :: 0 <= j <= i ==> !ops[j].body.Resize?
    decreases i + 1
  {
    if i < 0 then None
    else if ops[i].body.Resize? then Some(i)
    else LastResizeUpTo(ops, i - 1)
  }

  function LastActiveResize(s: History): (r: Option<nat>)
    requires Valid(s)
    ensures r.Some? ==> r.value <= s.index && s.ops[r.value].body.Resize?
    ensures r.Some? ==> forall j :: r.value < j <= s.index ==> !s.ops[j].body.Resize?
    ensures r.None? ==> forall j :: 0 <= j <= s.index ==> !s.ops[j].body.Resize?
  {
    LastResizeUpTo(s.ops, s.index)
  }

  /** `useCurrentPanelSize`: the dimensions of the last active resize, or 0x0x0. */
  function CurrentPanelSize(s: History): (d: Dims)
    requires Valid(s)
    ensures (forall j :: 0 <= j <= s.index ==> !s.ops[j].body.Resize?) ==> d == DefaultDims
    ensures forall i :: 0 <= i <= s.index && s.ops[i].body.Resize?
                        && (forall j :: i < j <= s.index ==> !s.ops[j].body.Resize?)
                      ==> d == Dims(s.ops[i].body.w, s.ops[i].body.h, s.ops[i].body.t)
  {
    match LastActiveResize(s)
    case None => DefaultDims
    case Some(i) =>
      var op := s.ops[i].body;
      Dims(op.w, op.h, op.t)
  }

  lemma {:induction false} LastResizeSeesOnlyPrefix(a: seq<Operation>, b: seq<Operation>, i: int)
    requires -1 <= i < |a| && i < |b|
    requires a[..i + 1] == b[..i + 1]
    ensures LastResizeUpTo(a, i) == LastResizeUpTo(b, i)
    decreases i + 1
  {
    if i >= 0 {
      assert a[i] == a[..i + 1][i] == b[..i + 1][i] == b[i];
      assert a[..i] == a[..i + 1][..i];
      assert b[..i] == b[..i + 1][..i];
      LastResizeSeesOnlyPrefix(a, b, i - 1);
    }
  }

  /** Resizes in the redo branch never influence the size: two histories with
      the same active operations report the same size. */
  lemma RedoBranchDoesNotMatter(s1: History, s2: History)
    requires Valid(s1) && Valid(s2)
    requires ActiveOperations(s1) == ActiveOperations(s2)
    ensures CurrentPanelSize(s1) == CurrentPanelSize(s2)
  {
    LastResizeSeesOnlyPrefix(s1.ops, s2.ops, s1.index);
  }
}
