/** The selector that picks the operations sent for recompute
    (src/hooks/useCadInput.ts), and how each store action moves it. */
module CadInput {
  import opened Wrappers
  import opened Operations
  import opened OperationsStore

  /** The active operations: the history up to and including the history index. */
  function ActiveOperations(s: History): (r: seq<Operation>)
    requires Valid(s)
    ensures |r| == s.index + 1
    ensures r <= s.ops
  {
    s.ops[..s.index + 1]
  }

  lemma NothingActiveInitially()
    ensures ActiveOperations(Initial) == []
  {
  }

  lemma NothingActiveAfterReset(s: History)
    ensures ActiveOperations(Reset(s)) == []
  {
  }

  /** Whatever the redo branch held, an added operation becomes the last active one
      and the earlier active operations are kept. */
  lemma ActiveAfterAdd(s: History, body: OpBody, id: OpId)
    requires Valid(s)
    ensures ActiveOperations(AddOp(s, body, id)) == ActiveOperations(s) + [Operation(id, body)]
  {
    var r := AddOp(s, body, id);
    assert ActiveOperations(r) == r.ops;
  }

  /** Undo deactivates exactly the last active operation. */
  lemma ActiveAfterUndo(s: History)
    requires Valid(s) && s.index >= 0
    ensures ActiveOperations(Undo(s)) == ActiveOperations(s)[..s.index]
  {
  }

  /** Redo after undo restores the same active operations, same ids, same order. */
  lemma ActiveAfterUndoRedo(s: History)
    requires Valid(s) && s.index >= 0
    ensures ActiveOperations(Redo(Undo(s))) == ActiveOperations(s)
  {
    RedoAfterUndo(s);
  }

  /** Removing an active operation drops it from the active operations;
      removing an inactive one leaves them untouched. */
  lemma ActiveAfterRemove(s: History, id: OpId)
    requires Valid(s)
    ensures var a := ActiveOperations(s);
      match FindIndex(s.ops, id)
      case None => ActiveOperations(RemoveOp(s, id)) == a
      case Some(i) =>
        if i <= s.index then ActiveOperations(RemoveOp(s, id)) == a[..i] + a[i + 1..]
        else ActiveOperations(RemoveOp(s, id)) == a
  {
    var a := ActiveOperations(s);
    var r := RemoveOp(s, id);
    match FindIndex(s.ops, id)
    case None =>
    case Some(i) =>
      var b := ActiveOperations(r);
      if i <= s.index {
        assert |b| == |a| - 1;
        forall j | 0 <= j < |b|
          ensures b[j] == (a[..i] + a[i + 1..])[j]
        {
          if j < i {
            assert b[j] == s.ops[j];
          } else {
            assert b[j] == s.ops[j + 1];
          }
        }
      } else {
        assert |b| == |a|;
        forall j | 0 <= j < |b|
          ensures b[j] == a[j]
        {
          assert b[j] == r.ops[j] == s.ops[j];
        }
      }
  }

  /** An update never changes how many operations are active; only the patched
      entry differs, and only when it is active. */
  lemma ActiveAfterUpdate(s: History, id: OpId, p: Patch)
    requires Valid(s)
    ensures var a := ActiveOperations(s);
      var b := ActiveOperations(UpdateOp(s, id, p));
      && |b| == |a|
      && (forall j :: 0 <= j < |a| && (FindIndex(s.ops, id).None? || j != FindIndex(s.ops, id).value)
            ==> b[j] == a[j])
      && (FindIndex(s.ops, id).Some? && FindIndex(s.ops, id).value <= s.index ==>
            b[FindIndex(s.ops, id).value] == ApplyPatch(a[FindIndex(s.ops, id).value], p))
  {
  }
}
