/** The UI side of the worker channel (src/engine/cadWorker.ts): `postCad`
    registers a waiter keyed by the version of the operations it sends, and
    every message the worker posts is offered to the registered waiters; a
    waiter whose version matches removes itself and settles its promise with
    the message. The table is a sequence of waiters, each standing for its
    `handle` closure; the worker's messages are `OccWorker.Posted`. */
module CadWorker {
  import opened Wrappers
  import opened Operations
  import opened CadTypes
  import opened HashOperations
  import opened OccWorker

  /** A registered `handle` closure: its identity and the version it awaits. */
  datatype Waiter = Waiter(handle: nat, version: string)

  /** A settled `postCad` promise and the value it settled with. */
  datatype Settled = Settled(handle: nat, out: CadOut)

  /** Each closure is a fresh object, so no two waiters share a handle. */
  predicate DistinctHandles(ls: seq<Waiter>) {
    forall i, j :: 0 <= i < j < |ls| ==> ls[i].handle != ls[j].handle
  }

  predicate Fresh(ls: seq<Waiter>, handle: nat) {
    forall i :: 0 <= i < |ls| ==> ls[i].handle != handle
  }

  /** `postCad`: version the operations, register the waiter, post the payload.
      The hash is awaited before the waiter is pushed; the model takes the
      three steps as one. */
  function PostCad(h: Hasher, ls: seq<Waiter>, handle: nat, ops: seq<Operation>): (r: (seq<Waiter>, CadIn))
    requires DistinctHandles(ls) && Fresh(ls, handle)
    ensures DistinctHandles(r.0)
    ensures |r.0| == |ls| + 1 && r.0[..|ls|] == ls
    ensures r.0[|ls|] == Waiter(handle, r.1.version)
    ensures r.1.operations == ops
    ensures r.1.version == HashOperations.HashOperations(h, ops)
  {
    var v := HashOperations.HashOperations(h, ops);
    (ls + [Waiter(handle, v)], CadIn(ops, v))
  }

  /** The `version` a listener reads off a posted message: the readiness
      signal carries none, so it equals no waiter's version. */
  function VersionOf(p: Posted): Option<string> {
    match p
    case ReadySignal => None
    case Response(out) => Some(out.version)
  }

  predicate Matches(w: Waiter, v: Option<string>) {
    v == Some(w.version)
  }

  /** `listeners.forEach(cb => cb(data))` from position `k`: `forEach` fixes
      the bound `len0` when it starts and skips positions past the current
      end; a matching waiter splices itself out at its own position, so the
      waiter behind it moves into position `k` and is not visited. Returns the
      table afterwards and the waiters that matched, in visiting order. */
  function ForEachFrom(ls: seq<Waiter>, k: nat, len0: nat, v: Option<string>): (r: (seq<Waiter>, seq<Waiter>))
    decreases len0 - k
  {
    if k >= len0 || k >= |ls| then (ls, [])
    else if Matches(ls[k], v) then
      var rest := ForEachFrom(ls[..k] + ls[k + 1..], k + 1, len0, v);
      (rest.0, [ls[k]] + rest.1)
    else ForEachFrom(ls, k + 1, len0, v)
  }

  /** The message handler: offer `p` to every registered waiter; each one
      that matches settles its promise with the message as posted, an error
      message included. */
  function Dispatch(ls: seq<Waiter>, p: Posted): (r: (seq<Waiter>, seq<Settled>))
    ensures |r.0| + |r.1| == |ls|
    ensures multiset(r.0) <= multiset(ls)
    ensures forall i :: 0 <= i < |r.1| ==>
      p.Response? && r.1[i].out == p.out && exists j :: 0 <= j < |ls| && ls[j].handle == r.1[i].handle && ls[j].version == p.out.version
  {
    var v := VersionOf(p);
    var fe := ForEachFrom(ls, 0, |ls|, v);
    DispatchIsReference(ls, v);
    ReferenceSplits(ls, v, false);
    ReferenceResolvesMatches(ls, v, false);
    ReferenceResolvesMembers(ls, v, false);
    if p.Response? then
      (fe.0, seq(|fe.1|, i requires 0 <= i < |fe.1| => Settled(fe.1[i].handle, p.out)))
    else
      assert NoneMatch(ls, v);
      NoMatchNoChange(ls, v, false);
      (fe.0, [])
  }

  // ---------------------------------------------------------------------------
  // A reference reading of the dispatch over the original table
  // ---------------------------------------------------------------------------

  /** Walking the table as it was when the message arrived: a waiter is
      resolved when it matches and the waiter just before it was not removed
      (`skip` says that it was). */
  function Reference(ls: seq<Waiter>, v: Option<string>, skip: bool): (r: (seq<Waiter>, seq<Waiter>))
    decreases |ls|
  {
    if ls == [] then ([], [])
    else if Matches(ls[0], v) && !skip then
      var rest := Reference(ls[1..], v, true);
      (rest.0, [ls[0]] + rest.1)
    else
      var rest := Reference(ls[1..], v, false);
      ([ls[0]] + rest.0, rest.1)
  }

  /** The reference splits the table: kept and resolved waiters together are
      exactly the table's waiters. */
  lemma {:induction false} ReferenceSplits(ls: seq<Waiter>, v: Option<string>, skip: bool)
    ensures var r := Reference(ls, v, skip);
      multiset(r.0) + multiset(r.1) == multiset(ls) && |r.0| + |r.1| == |ls|
    decreases |ls|
  {
    if ls != [] {
      ReferenceSplits(ls[1..], v, !skip && Matches(ls[0], v));
      assert ls == [ls[0]] + ls[1..];
    }
  }

  lemma {:induction false} ReferenceResolvesMatches(ls: seq<Waiter>, v: Option<string>, skip: bool)
    ensures forall i :: 0 <= i < |Reference(ls, v, skip).1| ==> Matches(Reference(ls, v, skip).1[i], v)
    decreases |ls|
  {
    if ls != [] {
      ReferenceResolvesMatches(ls[1..], v, !skip && Matches(ls[0], v));
    }
  }

  lemma {:induction false} ReferenceResolvesMembers(ls: seq<Waiter>, v: Option<string>, skip: bool)
    ensures forall i :: 0 <= i < |Reference(ls, v, skip).1| ==> Reference(ls, v, skip).1[i] in ls
    decreases |ls|
  {
    if ls != [] {
      ReferenceResolvesMembers(ls[1..], v, !skip && Matches(ls[0], v));
    }
  }

  /** One step of the reference after a removal: the next waiter is passed over. */
  lemma SkipStep(ls: seq<Waiter>, v: Option<string>)
    requires ls != []
    ensures Reference(ls, v, true) == ([ls[0]] + Reference(ls[1..], v, false).0, Reference(ls[1..], v, false).1)
  {
  }

  /** `forEach` from position `k` over a table whose first `k` waiters stay
      untouched is the reference over the rest. */
  lemma {:induction false} ForEachIsReference(ls: seq<Waiter>, k: nat, len0: nat, v: Option<string>)
    requires k <= |ls| <= len0
    ensures var r := Reference(ls[k..], v, false);
      ForEachFrom(ls, k, len0, v) == (ls[..k] + r.0, r.1)
    decreases |ls| - k
  {
    if k == |ls| {
      assert ls[..k] + [] == ls;
    } else if Matches(ls[k], v) {
      var next := ls[..k] + ls[k + 1..];
      assert ls[k..][0] == ls[k] && ls[k..][1..] == ls[k + 1..];
      if k + 1 <= |next| {
        ForEachIsReference(next, k + 1, len0, v);
        assert next[..k + 1] == ls[..k] + [ls[k + 1]];
        assert next[k + 1..] == ls[k + 2..];
        SkipStep(ls[k + 1..], v);
        assert ls[k + 1..][0] == ls[k + 1] && ls[k + 1..][1..] == ls[k + 2..];
        assert ls[..k] + [ls[k + 1]] + Reference(ls[k + 2..], v, false).0
          == ls[..k] + ([ls[k + 1]] + Reference(ls[k + 2..], v, false).0);
      } else {
        assert ls[k + 1..] == [];
        assert next == ls[..k];
      }
    } else {
      ForEachIsReference(ls, k + 1, len0, v);
      assert ls[k..][0] == ls[k] && ls[k..][1..] == ls[k + 1..];
      var r := Reference(ls[k + 1..], v, false);
      assert Reference(ls[k..], v, false) == ([ls[k]] + r.0, r.1);
      assert ls[..k + 1] == ls[..k] + [ls[k]];
      assert ls[..k + 1] + r.0 == ls[..k] + ([ls[k]] + r.0);
    }
  }

  /** The message handler agrees with the reference reading. */
  lemma DispatchIsReference(ls: seq<Waiter>, v: Option<string>)
    ensures ForEachFrom(ls, 0, |ls|, v) == Reference(ls, v, false)
  {
    ForEachIsReference(ls, 0, |ls|, v);
    assert ls[..0] + Reference(ls[0..], v, false).0 == Reference(ls, v, false).0;
  }

  // ---------------------------------------------------------------------------
  // What a dispatch guarantees
  // ---------------------------------------------------------------------------

  /** The waiters of a table that do not match `v`, in table order. */
  function Others(ls: seq<Waiter>, v: Option<string>): (r: seq<Waiter>)
    decreases |ls|
  {
    if ls == [] then [] else (if Matches(ls[0], v) then [] else [ls[0]]) + Others(ls[1..], v)
  }

  predicate NoneMatch(ls: seq<Waiter>, v: Option<string>) {
    forall i :: 0 <= i < |ls| ==> !Matches(ls[i], v)
  }

  /** Waiters that do not match stay registered, in their order, and nothing
      else but skipped matching waiters stays with them. */
  lemma {:induction false} OthersStay(ls: seq<Waiter>, v: Option<string>, skip: bool)
    ensures Others(Reference(ls, v, skip).0, v) == Others(ls, v)
    decreases |ls|
  {
    if ls != [] {
      var s := Matches(ls[0], v) && !skip;
      OthersStay(ls[1..], v, s);
      var rest := Reference(ls[1..], v, s);
      if !s {
        var kept := [ls[0]] + rest.0;
        assert kept[0] == ls[0] && kept[1..] == rest.0;
      }
    }
  }

  /** With distinct handles no resolved waiter stays registered. */
  lemma {:induction false} ResolvedAreRemoved(ls: seq<Waiter>, v: Option<string>, skip: bool)
    requires DistinctHandles(ls)
    ensures var r := Reference(ls, v, skip);
      forall i, j :: 0 <= i < |r.1| && 0 <= j < |r.0| ==> r.1[i].handle != r.0[j].handle
    decreases |ls|
  {
    if ls != [] {
      var s := Matches(ls[0], v) && !skip;
      var tail := ls[1..];
      assert DistinctHandles(tail) by {
        forall i, j | 0 <= i < j < |tail| ensures tail[i].handle != tail[j].handle {
          assert tail[i] == ls[i + 1] && tail[j] == ls[j + 1];
        }
      }
      ResolvedAreRemoved(tail, v, s);
      var rest := Reference(tail, v, s);
      ReferenceSplits(tail, v, s);
      forall w | w in rest.0 + rest.1 ensures w.handle != ls[0].handle {
        assert w in multiset(rest.0) + multiset(rest.1);
        assert w in multiset(tail);
        var m :| 0 <= m < |tail| && tail[m] == w;
        assert w == ls[m + 1];
      }
      var r := Reference(ls, v, skip);
      if s {
        assert r == (rest.0, [ls[0]] + rest.1);
        forall i, j | 0 <= i < |r.1| && 0 <= j < |r.0| ensures r.1[i].handle != r.0[j].handle {
          assert r.0[j] in rest.0 + rest.1;
          if i > 0 { assert r.1[i] == rest.1[i - 1]; }
        }
      } else {
        assert r == ([ls[0]] + rest.0, rest.1);
        forall i, j | 0 <= i < |r.1| && 0 <= j < |r.0| ensures r.1[i].handle != r.0[j].handle {
          assert r.1[i] in rest.0 + rest.1;
          if j > 0 { assert r.0[j] == rest.0[j - 1]; }
        }
      }
    }
  }

  /** A settled promise's waiter has left the table, so a later message
      cannot settle it again. */
  lemma SettledAreRemoved(ls: seq<Waiter>, p: Posted)
    requires DistinctHandles(ls)
    ensures var d := Dispatch(ls, p);
      forall i, j :: 0 <= i < |d.1| && 0 <= j < |d.0| ==> d.1[i].handle != d.0[j].handle
  {
    var v := VersionOf(p);
    DispatchIsReference(ls, v);
    ResolvedAreRemoved(ls, v, false);
    if !p.Response? {
      NoMatchNoChange(ls, v, false);
    }
  }

  /** A message nobody waits for changes nothing. */
  lemma {:induction false} NoMatchNoChange(ls: seq<Waiter>, v: Option<string>, skip: bool)
    requires NoneMatch(ls, v)
    ensures Reference(ls, v, skip) == (ls, [])
    decreases |ls|
  {
    if ls != [] {
      NoMatchNoChange(ls[1..], v, false);
      assert ls == [ls[0]] + ls[1..];
    }
  }

  /** The first waiter that matches is always resolved. */
  lemma {:induction false} FirstMatchResolved(ls: seq<Waiter>, v: Option<string>, j: nat)
    requires j < |ls| && Matches(ls[j], v) && NoneMatch(ls[..j], v)
    ensures |Reference(ls, v, false).1| > 0 && Reference(ls, v, false).1[0] == ls[j]
    decreases j
  {
    if j > 0 {
      assert ls[1..][..j - 1] == ls[..j][1..];
      assert !Matches(ls[..j][0], v);
      FirstMatchResolved(ls[1..], v, j - 1);
    }
  }

  /** When at most one waiter awaits `v` — in particular when the pending
      versions are pairwise distinct — no waiter for `v` survives. */
  lemma {:induction false} SingleMatchResolved(ls: seq<Waiter>, v: Option<string>, skip: bool)
    requires forall i, j :: 0 <= i < j < |ls| && Matches(ls[i], v) ==> !Matches(ls[j], v)
    requires skip ==> |ls| == 0 || !Matches(ls[0], v)
    ensures NoneMatch(Reference(ls, v, skip).0, v)
    decreases |ls|
  {
    if ls != [] {
      var s := Matches(ls[0], v) && !skip;
      if s {
        assert forall j :: 0 < j < |ls| ==> !Matches(ls[j], v);
      }
      SingleMatchResolved(ls[1..], v, s);
      var rest := Reference(ls[1..], v, s);
      if !s {
        var kept := [ls[0]] + rest.0;
        forall i | 0 <= i < |kept| ensures !Matches(kept[i], v) {
          if i > 0 { assert kept[i] == rest.0[i - 1]; }
        }
      }
    }
  }

  /** Two waiters registered back to back for the same version: the first is
      resolved and the second, moved into its place by the splice, is passed
      over and waits for the next message with that version. */
  lemma BackToBackSameVersion(a: nat, b: nat, version: string)
    ensures var ls := [Waiter(a, version), Waiter(b, version)];
      ForEachFrom(ls, 0, 2, Some(version)) == ([Waiter(b, version)], [Waiter(a, version)])
  {
    var ls := [Waiter(a, version), Waiter(b, version)];
    var v := Some(version);
    assert Matches(ls[0], v);
    assert ls[..0] + ls[0 + 1..] == [Waiter(b, version)];
    assert ForEachFrom([Waiter(b, version)], 1, 2, v) == ([Waiter(b, version)], []);
    assert ForEachFrom(ls, 0, 2, v) == (ForEachFrom(ls[..0] + ls[0 + 1..], 0 + 1, 2, v).0, [ls[0]] + ForEachFrom(ls[..0] + ls[0 + 1..], 0 + 1, 2, v).1);
    assert [ls[0]] + [] == [Waiter(a, version)];
  }

  /** A fresh request's own response settles its promise when no other pending
      waiter awaits the same version. */
  lemma ResponseSettlesItsRequest(h: Hasher, ls: seq<Waiter>, handle: nat, ops: seq<Operation>, out: CadOut)
    requires DistinctHandles(ls) && Fresh(ls, handle)
    requires out.version == HashOperations.HashOperations(h, ops)
    requires NoneMatch(ls, Some(out.version))
    ensures var posted := PostCad(h, ls, handle, ops);
      var d := Dispatch(posted.0, Response(out));
      && d.0 == ls
      && d.1 == [Settled(handle, out)]
  {
    var posted := PostCad(h, ls, handle, ops);
    var v := Some(out.version);
    var w := Waiter(handle, out.version);
    assert posted.0 == ls + [w];
    assert posted.0[..|ls|] == ls;
    FirstMatchResolved(posted.0, v, |ls|);
    DispatchIsReference(posted.0, v);
    ReferenceSplits(posted.0, v, false);
    ListAfterResolvingLast(ls, w, v);
  }

  lemma {:induction false} ListAfterResolvingLast(ls: seq<Waiter>, w: Waiter, v: Option<string>)
    requires NoneMatch(ls, v) && Matches(w, v)
    ensures Reference(ls + [w], v, false) == (ls, [w])
    decreases |ls|
  {
    if ls == [] {
      assert ls + [w] == [w];
      assert [w][1..] == [];
      assert Reference([w][1..], v, true) == ([], []);
      assert Reference([w], v, false) == (Reference([w][1..], v, true).0, [w] + Reference([w][1..], v, true).1);
      assert [w] + [] == [w];
    } else {
      assert (ls + [w])[1..] == ls[1..] + [w];
      assert (ls + [w])[0] == ls[0];
      ListAfterResolvingLast(ls[1..], w, v);
      assert ls == [ls[0]] + ls[1..];
    }
  }

  /** The table after a message keeps every waiter of another version, in
      order. */
  lemma OthersStayRegistered(ls: seq<Waiter>, p: Posted)
    ensures Others(Dispatch(ls, p).0, VersionOf(p)) == Others(ls, VersionOf(p))
  {
    DispatchIsReference(ls, VersionOf(p));
    OthersStay(ls, VersionOf(p), false);
  }

  /** A message nobody waits for leaves the table as it was and settles nothing. */
  lemma UnmatchedMessageChangesNothing(ls: seq<Waiter>, p: Posted)
    requires NoneMatch(ls, VersionOf(p))
    ensures Dispatch(ls, p) == (ls, [])
  {
    DispatchIsReference(ls, VersionOf(p));
    NoMatchNoChange(ls, VersionOf(p), false);
  }

  /** When the pending versions are pairwise distinct, a response leaves no
      waiter of its version behind. */
  lemma DistinctVersionsAllSettled(ls: seq<Waiter>, out: CadOut)
    requires forall i, j :: 0 <= i < j < |ls| ==> ls[i].version != ls[j].version
    ensures NoneMatch(Dispatch(ls, Response(out)).0, Some(out.version))
  {
    DispatchIsReference(ls, Some(out.version));
    SingleMatchResolved(ls, Some(out.version), false);
  }

  /** The readiness signal settles nothing and leaves the table as it was. */
  lemma ReadySignalSettlesNothing(ls: seq<Waiter>)
    ensures Dispatch(ls, ReadySignal) == (ls, [])
  {
    NoMatchNoChange(ls, None, false);
    DispatchIsReference(ls, None);
  }
}
