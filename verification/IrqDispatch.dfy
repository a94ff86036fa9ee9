/** The interrupt dispatcher: it scans the pending mask from bit 0, calls the first pending interrupt's
    handler, and reads the mask again, until nothing is pending.

    A mask is the set of its bits.  Handlers clear their own bit; later[k] is the set of interrupts
    raised while the handler called k-th runs (nothing is raised after the last of them).
 */
module IrqDispatch {

  const NIRQ := 32

  predicate IsMask(m: set<nat>) { forall i :: i in m ==> i < NIRQ }

  ghost predicate IsLowest(m: set<nat>, i: nat) {
    i in m && forall j :: j in m ==> i <= j
  }

  function Raised(later: seq<set<nat>>, k: nat): set<nat> {
    if k < |later| then later[k] else {}
  }

  /** What is pending when k handlers have returned. */
  ghost function PendingAfter(m: set<nat>, later: seq<set<nat>>, calls: seq<nat>, k: nat): set<nat>
    requires k <= |calls|
  {
    if k == 0 then m else PendingAfter(m, later, calls, k - 1) - {calls[k - 1]} + Raised(later, k - 1)
  }

  /** Each call is to the lowest id pending at that moment. */
  ghost predicate LowestFirst(m: set<nat>, later: seq<set<nat>>, calls: seq<nat>) {
    forall k :: 0 <= k < |calls| ==> IsLowest(PendingAfter(m, later, calls, k), calls[k])
  }

  /** The calls of a whole dispatch: lowest first, and nothing is left pending. */
  ghost predicate Served(m: set<nat>, later: seq<set<nat>>, calls: seq<nat>) {
    LowestFirst(m, later, calls) && PendingAfter(m, later, calls, |calls|) == {}
  }

  lemma {:induction false} PendingIgnoresTheFuture(m: set<nat>, later: seq<set<nat>>, calls: seq<nat>, more: seq<nat>, k: nat)
    requires k <= |calls|
    ensures PendingAfter(m, later, calls + more, k) == PendingAfter(m, later, calls, k)
  {
    if k > 0 {
      PendingIgnoresTheFuture(m, later, calls, more, k - 1);
    }
  }

  lemma NoCallYet(m: set<nat>, later: seq<set<nat>>)
    ensures LowestFirst(m, later, []) && PendingAfter(m, later, [], 0) == m
  {
  }

  lemma OneMoreCall(m: set<nat>, later: seq<set<nat>>, calls: seq<nat>, i: nat)
    requires LowestFirst(m, later, calls) && IsLowest(PendingAfter(m, later, calls, |calls|), i)
    ensures LowestFirst(m, later, calls + [i])
    ensures PendingAfter(m, later, calls + [i], |calls| + 1)
         == PendingAfter(m, later, calls, |calls|) - {i} + Raised(later, |calls|)
  {
    hide IsLowest;
    forall k | 0 <= k <= |calls|
      ensures PendingAfter(m, later, calls + [i], k) == PendingAfter(m, later, calls, k)
    {
      PendingIgnoresTheFuture(m, later, calls, [i], k);
    }
  }

  /** Why i is pending after k calls: it was pending at the start and has not been served, or it was
      raised during some call and has not been served since. */
  ghost predicate Due(m: set<nat>, later: seq<set<nat>>, calls: seq<nat>, k: nat, i: nat)
    requires k <= |calls|
  {
    || (i in m && i !in calls[..k])
    || exists j :: 0 <= j < k && i in Raised(later, j) && i !in calls[j + 1..k]
  }

  lemma {:induction false} PendingIsDue(m: set<nat>, later: seq<set<nat>>, calls: seq<nat>, k: nat, i: nat)
    requires k <= |calls|
    ensures i in PendingAfter(m, later, calls, k) <==> Due(m, later, calls, k, i)
  {
    if k > 0 {
      PendingIsDue(m, later, calls, k - 1, i);
      var c := calls[k - 1];
      assert calls[..k] == calls[..k - 1] + [c];
      forall j | 0 <= j < k - 1 && i in Raised(later, j)
        ensures i in calls[j + 1..k] <==> i in calls[j + 1..k - 1] || i == c
      {
        assert calls[j + 1..k] == calls[j + 1..k - 1] + [c];
      }
      assert calls[k - 1 + 1..k] == [];
    }
  }

  /** No interrupt is lost or served without cause: an id raised during the call at `k` (or pending at
      the start) is called after it, and whatever is called was due. */
  lemma {:induction false} NothingLost(m: set<nat>, later: seq<set<nat>>, calls: seq<nat>, i: nat)
    requires Served(m, later, calls)
    ensures i in m ==> i in calls
    ensures forall k :: 0 <= k < |calls| && i in Raised(later, k) ==> i in calls[k + 1..]
    ensures forall k :: 0 <= k < |calls| ==> Due(m, later, calls, k, calls[k])
  {
    PendingIsDue(m, later, calls, |calls|, i);
    assert calls[..|calls|] == calls;
    forall k | 0 <= k < |calls| && i in Raised(later, k)
      ensures i in calls[k + 1..]
    {
      assert calls[k + 1..|calls|] == calls[k + 1..];
    }
    forall k | 0 <= k < |calls|
      ensures Due(m, later, calls, k, calls[k])
    {
      PendingIsDue(m, later, calls, k, calls[k]);
    }
  }

  ghost predicate Ascending(calls: seq<nat>) {
    forall a, b :: 0 <= a < b < |calls| ==> calls[a] < calls[b]
  }

  /** If nothing new comes in, exactly the interrupts pending at the start are served, once each, in
      ascending order. */
  lemma {:induction false} QuietRun(m: set<nat>, calls: seq<nat>)
    requires Served(m, [], calls)
    ensures Ascending(calls)
    ensures forall i :: i in calls <==> i in m
  {
    forall a, b | 0 <= a < b < |calls|
      ensures calls[a] < calls[b]
    {
      PendingIsDue(m, [], calls, a, calls[b]);
      PendingIsDue(m, [], calls, b, calls[b]);
      assert calls[a] in calls[..b];
      assert calls[..a] <= calls[..b];
      assert forall x :: x in calls[..a] ==> x in calls[..b];
    }
    forall i
      ensures i in calls <==> i in m
    {
      PendingIsDue(m, [], calls, |calls|, i);
      assert calls[..|calls|] == calls;
      if i in calls {
        var k :| 0 <= k < |calls| && calls[k] == i;
        PendingIsDue(m, [], calls, k, i);
      }
    }
  }

  class Dispatcher {
    var pending: set<nat>
    ghost var calls: seq<nat>

    constructor (pending: set<nat>)
      ensures this.pending == pending && calls == []
    {
      this.pending := pending;
      calls := [];
    }

    /** A handler clears its own interrupt; others may be raised while it runs. */
    method Handle(i: nat, raised: set<nat>)
      modifies this
      ensures pending == old(pending) - {i} + raised && calls == old(calls) + [i]
    {
      pending := pending - {i} + raised;
      calls := calls + [i];
    }

    /** The dispatcher, entered with something pending.  Each scan ends on the lowest pending id. */
    method Dispatch(later: seq<set<nat>>) returns (ghost looked: seq<nat>)
      requires pending != {} && IsMask(pending) && calls == []
      requires forall k :: 0 <= k < |later| ==> IsMask(later[k])
      modifies this
      ensures pending == {} && Served(old(pending), later, calls)
      // How many bits each scan looked at.
      ensures |looked| == |calls| && forall k :: 0 <= k < |looked| ==> looked[k] == calls[k] + 1 <= NIRQ
    {
      hide LowestFirst, PendingAfter;
      NoCallYet(pending, later);
      var n: nat := 0;
      ghost var entered := pending;
      looked := [];
      var active := pending;
      while true
        invariant active == pending && active != {} && IsMask(active)
        invariant |calls| == n && active == PendingAfter(entered, later, calls, n)
        invariant |looked| == n && forall k :: 0 <= k < n ==> looked[k] == calls[k] + 1 <= NIRQ
        invariant LowestFirst(entered, later, calls) && entered == old(pending)
        decreases if n < |later| then |later| - n else 0, |active|
      {
        var i: nat := 0;
        ghost var bits: nat := 1;
        while i !in active
          invariant bits == i + 1 && i < NIRQ && forall j :: j in active ==> i <= j
          decreases NIRQ - i
        {
          var j :| j in active;
          i := i + 1;
          bits := bits + 1;
        }
        looked := looked + [bits];
        OneMoreCall(entered, later, calls, i);
        Handle(i, Raised(later, n));
        n := n + 1;
        active := pending;
        if active == {} { break; }
      }
    }
  }
}
