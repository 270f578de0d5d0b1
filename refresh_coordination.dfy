/** The suspend/resume coordination of tree refreshes: a depth counter
    (ignoreRefreshTreeView) and a flag recording that a refresh was asked for
    while suspended (calledRefreshTreeView). Building the new tree and merging
    it into the live tree are opaque; the merge is a step that may fail. */
module RefreshCoordination {

  /** What the coordinator makes visible: its three notifications, the call
      asking the main window for a new refresh, and each merge, with the depth
      the counter had while it ran and whether it failed. */
  datatype Event =
    | RefreshSuspended
    | RefreshResumed
    | RefreshRequested
    | Merged(depthDuringMerge: int, failed: bool)
    | TreeRefreshed

  datatype RefreshState = RefreshState(depth: int, pending: bool)

  /** Suspend, Resume, and the delivery on the owner thread of a tree built by
      a refresh (the callback that RefreshTreeView hands to Program.Invoke). */
  datatype Op = Suspend | Resume | Deliver(mergeFails: bool)

  /** One operation: the state after it and the events it raises. */
  function Step(s: RefreshState, op: Op): (r: (RefreshState, seq<Event>))
    ensures r.0.depth == s.depth + Delta(op)
    ensures r.0.pending != s.pending ==> (op == Suspend && s.depth == 0) || (op.Deliver? && s.depth > 0)
    ensures op == Suspend ==> r.1 == [RefreshSuspended] && (s.depth == 0 ==> !r.0.pending)
    ensures RefreshRequested in r.1 <==> op == Resume && r.0.depth == 0 && s.pending
    ensures op.Deliver? ==> (r.1 == [] <==> s.depth > 0) && (s.depth > 0 ==> r.0.pending)
    ensures forall e :: e in r.1 && e.Merged? ==> op.Deliver? && e.depthDuringMerge == s.depth + 1
  {
    match op
    case Suspend =>
      (RefreshState(s.depth + 1, if s.depth == 0 then false else s.pending), [RefreshSuspended])
    case Resume =>
      var d := s.depth - 1;
      (RefreshState(d, s.pending), (if d == 0 && s.pending then [RefreshRequested] else []) + [RefreshResumed])
    case Deliver(fails) =>
      if s.depth > 0 then (RefreshState(s.depth, true), [])
      else (s, [Merged(s.depth + 1, fails), TreeRefreshed])
  }

  /** A sequence of operations: the final state and every event, in order. */
  function Run(s: RefreshState, ops: seq<Op>): (r: (RefreshState, seq<Event>))
    ensures r.0.depth == DepthAfter(s.depth, ops)
    decreases |ops|
  {
    if ops == [] then (s, [])
    else
      var first := Step(s, ops[0]);
      var rest := Run(first.0, ops[1..]);
      (rest.0, first.1 + rest.1)
  }

  function Delta(op: Op): int
  {
    match op
    case Suspend => 1
    case Resume => -1
    case Deliver(_) => 0
  }

  function DepthAfter(d: int, ops: seq<Op>): int
    decreases |ops|
  {
    if ops == [] then d else DepthAfter(d + Delta(ops[0]), ops[1..])
  }

  /** Starting at depth d, the depth is at least 1 before and after every operation. */
  predicate StaysSuspended(d: int, ops: seq<Op>)
    decreases |ops|
  {
    d >= 1 && (ops == [] || StaysSuspended(d + Delta(ops[0]), ops[1..]))
  }

  /** Starting at depth d, no operation drives the depth below 0. */
  predicate NeverNegative(d: int, ops: seq<Op>)
    decreases |ops|
  {
    d >= 0 && (ops == [] || NeverNegative(d + Delta(ops[0]), ops[1..]))
  }

  predicate HasDelivery(ops: seq<Op>)
  {
    exists i :: 0 <= i < |ops| && ops[i].Deliver?
  }

  function CountRequests(es: seq<Event>): nat
    decreases |es|
  {
    if es == [] then 0 else (if es[0] == RefreshRequested then 1 else 0) + CountRequests(es[1..])
  }

  lemma {:induction false} CountRequestsAppend(a: seq<Event>, b: seq<Event>)
    ensures CountRequests(a + b) == CountRequests(a) + CountRequests(b)
    decreases |a|
  {
    if a == [] {
      assert a + b == b;
    } else {
      assert (a + b)[0] == a[0];
      assert (a + b)[1..] == a[1..] + b;
      CountRequestsAppend(a[1..], b);
    }
  }

  /** Running a + b is running a, then b from where a left off. */
  lemma {:induction false} RunAppend(s: RefreshState, a: seq<Op>, b: seq<Op>)
    ensures Run(s, a + b) == (Run(Run(s, a).0, b).0, Run(s, a).1 + Run(Run(s, a).0, b).1)
    decreases |a|
  {
    if a == [] {
      assert a + b == b;
      assert Run(s, a) == (s, []);
      assert [] + Run(s, b).1 == Run(s, b).1;
    } else {
      assert (a + b)[0] == a[0];
      assert (a + b)[1..] == a[1..] + b;
      var first := Step(s, a[0]);
      RunAppend(first.0, a[1..], b);
      var x := Run(first.0, a[1..]);
      var y := Run(x.0, b);
      assert Run(s, a) == (x.0, first.1 + x.1);
      assert Run(s, a + b) == (y.0, first.1 + (x.1 + y.1));
      assert first.1 + (x.1 + y.1) == (first.1 + x.1) + y.1;
    }
  }

  /** While the refresh stays suspended, the depth only follows the
      suspends and resumes, a delivered tree is never merged but only sets the
      flag, and the only events are the suspend and resume notifications. */
  lemma {:induction false} SuspendedRun(s: RefreshState, ops: seq<Op>)
    requires StaysSuspended(s.depth, ops)
    ensures Run(s, ops).0.depth == DepthAfter(s.depth, ops)
    ensures Run(s, ops).0.pending == (s.pending || HasDelivery(ops))
    ensures forall e :: e in Run(s, ops).1 ==> e == RefreshSuspended || e == RefreshResumed
    decreases |ops|
  {
    if ops != [] {
      var next := Step(s, ops[0]).0;
      assert next.depth == s.depth + Delta(ops[0]);
      SuspendedRun(next, ops[1..]);
      assert next.pending == (s.pending || ops[0].Deliver?);
      if HasDelivery(ops[1..]) {
        var i :| 0 <= i < |ops[1..]| && ops[1..][i].Deliver?;
        assert ops[i + 1].Deliver?;
      }
      if ops[0].Deliver? {
        assert HasDelivery(ops);
      }
      if HasDelivery(ops) && !ops[0].Deliver? {
        var i :| 0 <= i < |ops| && ops[i].Deliver?;
        assert i > 0 && ops[1..][i - 1].Deliver?;
      }
    }
  }

  /** Coalescing: between a suspend from depth 0 and its matching resume, any
      number of deliveries and nested suspend/resume pairs lead to exactly one
      request for a catch-up refresh at that resume if a tree was delivered
      meanwhile, and to none otherwise; nothing is merged in between. A flag
      left set by an earlier period does not matter. */
  lemma {:induction false} Coalescing(s: RefreshState, middle: seq<Op>)
    requires s.depth == 0
    requires StaysSuspended(1, middle) && DepthAfter(1, middle) == 1
    ensures Run(s, [Suspend] + middle + [Resume]).0.depth == 0
    ensures CountRequests(Run(s, [Suspend] + middle + [Resume]).1) == (if HasDelivery(middle) then 1 else 0)
    ensures forall e :: e in Run(s, [Suspend] + middle + [Resume]).1 ==> !e.Merged? && e != TreeRefreshed
  {
    var s1 := Step(s, Suspend).0;
    assert s1 == RefreshState(1, false);
    RunAppend(s, [Suspend], middle);
    RunAppend(s, [Suspend] + middle, [Resume]);
    SuspendedRun(s1, middle);
    var r1 := Run(s, [Suspend]);
    assert [Suspend][1..] == [];
    assert Run(s1, []) == (s1, []);
    assert Step(s, Suspend).1 + [] == [RefreshSuspended];
    assert r1 == (s1, [RefreshSuspended]);
    var r2 := Run(s1, middle);
    var r3 := Run(r2.0, [Resume]);
    assert [Resume][1..] == [];
    assert r2.0.depth == 1 && r2.0.pending == HasDelivery(middle);
    assert r3.1 == (if HasDelivery(middle) then [RefreshRequested] else []) + [RefreshResumed];
    CountRequestsAppend(r1.1, r2.1);
    CountRequestsAppend(r1.1 + r2.1, r3.1);
    assert CountRequests(r2.1) == 0 by { NoRequests(r2.1); }
    assert CountRequests(r3.1) == (if HasDelivery(middle) then 1 else 0);
  }

  lemma {:induction false} NoRequests(es: seq<Event>)
    requires forall e :: e in es ==> e == RefreshSuspended || e == RefreshResumed
    ensures CountRequests(es) == 0
    decreases |es|
  {
    if es != [] {
      assert es[0] in es;
      assert forall e :: e in es[1..] ==> e in es;
      NoRequests(es[1..]);
    }
  }

  /** Every merge runs at depth 1: a tree is merged only when nothing holds the
      refresh suspended, and the merge itself is bracketed by one suspension. */
  lemma {:induction false} MergesRunAtDepthOne(s: RefreshState, ops: seq<Op>)
    requires NeverNegative(s.depth, ops)
    ensures forall e :: e in Run(s, ops).1 && e.Merged? ==> e.depthDuringMerge == 1
    ensures Run(s, ops).0.depth == DepthAfter(s.depth, ops)
    decreases |ops|
  {
    if ops != [] {
      var first := Step(s, ops[0]);
      assert first.0.depth == s.depth + Delta(ops[0]);
      MergesRunAtDepthOne(first.0, ops[1..]);
      assert forall e :: e in first.1 && e.Merged? ==> e.depthDuringMerge == 1;
    }
  }

  /** NavigationView's refresh fields and the events it raises. */
  class RefreshCoordinator {
    var depth: int
    var pending: bool
    var events: seq<Event>

    ghost predicate Valid()
      reads this
    {
      depth >= 0
    }

    function Current(): RefreshState
      reads this
    {
      RefreshState(depth, pending)
    }

    constructor ()
      ensures Valid() && depth == 0 && !pending && events == []
    {
      depth := 0;
      pending := false;
      events := [];
    }

    /** SuspendRefreshTreeView. */
    method SuspendRefreshTreeView()
      requires Valid()
      modifies this
      ensures Valid()
      ensures depth == old(depth) + 1
      ensures pending == (old(pending) && old(depth) != 0)
      ensures events == old(events) + [RefreshSuspended]
      ensures Current() == Step(old(Current()), Suspend).0 && events == old(events) + Step(old(Current()), Suspend).1
    {
      if depth == 0 {
        pending := false;
      }
      depth := depth + 1;
      events := events + [RefreshSuspended];
    }

    /** ResumeRefreshTreeView: returns whether the main window was asked for a
        refresh. The flag is left as it is. */
    method ResumeRefreshTreeView() returns (requested: bool)
      requires Valid() && depth > 0
      modifies this
      ensures Valid()
      ensures depth == old(depth) - 1 && pending == old(pending)
      ensures requested <==> depth == 0 && old(pending)
      ensures events == old(events) + (if requested then [RefreshRequested] else []) + [RefreshResumed]
      ensures Current() == Step(old(Current()), Resume).0 && events == old(events) + Step(old(Current()), Resume).1
    {
      depth := depth - 1;
      requested := depth == 0 && pending;
      if requested {
        events := events + [RefreshRequested];
      }
      events := events + [RefreshResumed];
    }

    /** The opaque merge of a built tree into the live tree; it may fail. */
    method MergeBuiltTree(fails: bool) returns (ok: bool)
      modifies this`events
      ensures ok == !fails
      ensures events == old(events) + [Merged(depth, fails)]
    {
      events := events + [Merged(depth, fails)];
      ok := !fails;
    }

    /** The owner-thread callback of RefreshTreeView, given the built tree's
        merge outcome: returns whether the tree was merged. */
    method DeliverBuiltTree(mergeFails: bool) returns (merged: bool)
      requires Valid()
      modifies this
      ensures Valid()
      ensures merged <==> old(depth) == 0
      ensures depth == old(depth)
      ensures !merged ==> pending && events == old(events)
      ensures merged ==> pending == old(pending) && events == old(events) + [Merged(old(depth) + 1, mergeFails), TreeRefreshed]
      ensures Current() == Step(old(Current()), Deliver(mergeFails)).0
      ensures events == old(events) + Step(old(Current()), Deliver(mergeFails)).1
    {
      if depth > 0 {
        pending := true;
        return false;
      }
      depth := depth + 1;
      // A failure is logged and swallowed; the decrement is the finally block.
      var _ := MergeBuiltTree(mergeFails);
      depth := depth - 1;
      events := events + [TreeRefreshed];
      merged := true;
    }
  }
}
