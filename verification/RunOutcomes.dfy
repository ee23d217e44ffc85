/**
 What can still come of a run of `Run` in internal/server/server.go: exactly
 when it may return nil, pass over an error, or leave connections being served.
 */
module RunOutcomes {
  import opened ByteStrings
  import opened RunProtocol

  lemma ReachedInv(n: nat, s: State)
    requires Reaches(Init(n), s)
    ensures Inv(s) && |s.listeners| == n
  {
    var es :| Feasible(Init(n), es) && Exec(Init(n), es) == s;
    InitInv(n);
    RunKeepsInv(Init(n), es);
  }

  lemma {:induction false} Follow(s: State, es: seq<Event>, more: seq<Event>)
    requires Feasible(s, es) && Feasible(Exec(s, es), more)
    ensures Feasible(s, es + more) && Exec(s, es + more) == Exec(Exec(s, es), more)
    decreases |es|
  {
    hide Enabled, Apply;
    if es == [] {
      assert es + more == more;
    } else {
      assert (es + more)[1..] == es[1..] + more;
      Follow(Apply(s, es[0]), es[1..], more);
    }
  }

  lemma First(s: State, e: Event, es: seq<Event>)
    requires Enabled(s, e) && Feasible(Apply(s, e), es)
    ensures Feasible(s, [e] + es) && Exec(s, [e] + es) == Exec(Apply(s, e), es)
  {
    hide Enabled, Apply;
    assert ([e] + es)[1..] == es;
  }

  // ----- From any state, `Run` can return quietly -----

  /** Listeners that have returned are left alone, and no further error is seen. */
  predicate LeftAlone(s: State, t: State) {
    && |t.listeners| == |s.listeners|
    && forall i :: 0 <= i < |s.listeners| ==>
         && (Past(s.listeners[i].phase) ==>
               Past(t.listeners[i].phase) && t.listeners[i].conns == s.listeners[i].conns)
         && t.listeners[i].sawLive == s.listeners[i].sawLive
  }

  lemma QuietStep(s: State, e: Event)
    requires Inv(s) && s.cancelled && Enabled(s, e) && Quiet(s, e)
    ensures var t := Apply(s, e);
            t.cancelled && Taken(t.main) == Taken(s.main) && s.errCh <= t.errCh && LeftAlone(s, t)
  {
    if OfListener(e) {
      assert ListenerInv(s, e.i);
    } else if e.Spawn? && s.main.next < |s.listeners| {
      assert ListenerInv(s, s.main.next);
    }
  }

  /** Main need never take an error: it can wait until every listener has finished. */
  lemma {:induction false} Finish(s: State) returns (es: seq<Event>)
    requires Inv(s) && s.cancelled
    ensures Feasible(s, es)
    ensures var t := Exec(s, es);
            t.main.RunReturned? && Taken(t.main) == Taken(s.main) && s.errCh <= t.errCh && LeftAlone(s, t)
    decreases Measure(s)
  {
    hide Inv, Enabled, Apply, Quiet, Measure;
    if s.main.RunReturned? {
      return [];
    }
    var e := AlwaysAStep(s);
    QuietCountsDown(s, e);
    QuietStep(s, e);
    StepKeepsInv(s, e);
    var rest := Finish(Apply(s, e));
    First(s, e, rest);
    es := [e] + rest;
  }

  lemma QuietCountsDown(s: State, e: Event)
    requires Inv(s) && s.cancelled && Enabled(s, e) && Quiet(s, e)
    ensures Measure(Apply(s, e)) < Measure(s)
  {
    StepsCountDown(s, e);
  }

  /** The same from a live context: the caller may cancel it. */
  lemma CancelAndFinish(s: State) returns (es: seq<Event>)
    requires Inv(s)
    ensures Feasible(s, es)
    ensures var t := Exec(s, es);
            t.main.RunReturned? && Taken(t.main) == Taken(s.main) && s.errCh <= t.errCh && LeftAlone(s, t)
  {
    if s.cancelled {
      es := Finish(s);
    } else {
      StepKeepsInv(s, Cancel);
      var rest := Finish(Apply(s, Cancel));
      First(s, Cancel, rest);
      es := [Cancel] + rest;
    }
  }

  // ----- What a state allows for a listener -----

  /** An error of this listener has been seen with a live context, or still can be. */
  predicate MaySee(s: State, i: nat)
    requires i < |s.listeners|
  {
    var l := s.listeners[i];
    l.sawLive
    || (!s.cancelled && (l.phase.Unborn? || l.phase.Starting? || l.phase.Accepting? || l.phase == Returned(true)))
  }

  /** The listener has returned with connections, or can still fail in its accept loop. */
  predicate MayLeave(s: State, i: nat)
    requires i < |s.listeners|
  {
    var l := s.listeners[i];
    (Past(l.phase) && l.conns != [])
    || (!s.cancelled && (l.phase.Unborn? || l.phase.Starting? || l.phase.Accepting?))
  }

  /** No step opens up what was ruled out, or undoes what has happened. */
  lemma StepNarrowsSeeing(s: State, e: Event, i: nat)
    requires Inv(s) && Enabled(s, e) && i < |s.listeners|
    ensures |Apply(s, e).listeners| == |s.listeners|
    ensures MaySee(Apply(s, e), i) ==> MaySee(s, i)
    ensures s.listeners[i].sawLive ==> Apply(s, e).listeners[i].sawLive
  {
    assert ListenerInv(s, i);
  }

  lemma StepNarrowsLeaving(s: State, e: Event, i: nat)
    requires Inv(s) && Enabled(s, e) && i < |s.listeners|
    ensures |Apply(s, e).listeners| == |s.listeners|
    ensures MayLeave(Apply(s, e), i) ==> MayLeave(s, i)
  {
    assert ListenerInv(s, i);
  }

  lemma {:induction false} RunNarrows(s: State, es: seq<Event>, i: nat)
    requires Inv(s) && Feasible(s, es) && i < |s.listeners|
    ensures Inv(Exec(s, es)) && |Exec(s, es).listeners| == |s.listeners|
    ensures MaySee(Exec(s, es), i) ==> MaySee(s, i)
    ensures MayLeave(Exec(s, es), i) ==> MayLeave(s, i)
    ensures s.listeners[i].sawLive ==> Exec(s, es).listeners[i].sawLive
    decreases |es|
  {
    hide Inv, Enabled, Apply, MaySee, MayLeave;
    if es != [] {
      StepKeepsInv(s, es[0]);
      StepNarrowsSeeing(s, es[0], i);
      StepNarrowsLeaving(s, es[0], i);
      RunNarrows(Apply(s, es[0]), es[1..], i);
    }
  }

  /** An error once taken is what `Run` returns. */
  lemma {:induction false} TakenStays(s: State, es: seq<Event>)
    requires Feasible(s, es) && Taken(s.main).Some?
    ensures Taken(Exec(s, es).main) == Taken(s.main)
    decreases |es|
  {
    if es != [] {
      TakenStays(Apply(s, es[0]), es[1..]);
    }
  }

  /** How far a listener is from having failed with a connection. */
  function Distance(s: State, i: nat): nat
    requires i < |s.listeners|
  {
    match s.listeners[i].phase
    case Unborn => if s.main.Spawning? && s.main.next <= i then i - s.main.next + 5 else 5
    case Starting => 4
    case Accepting => if s.listeners[i].conns == [] then 3 else 2
    case Returned(_) => 1
    case _ => 0
  }

  /** A step of main or of the listener that leaves everything else as it is. */
  predicate Private(s: State, t: State) {
    && Inv(t) && |t.listeners| == |s.listeners| && Taken(t.main) == Taken(s.main)
    && (t.main.RunReturned? <==> s.main.RunReturned?)
  }

  /** The next step towards an error of listener `i`. */
  function TowardsError(s: State, i: nat): Event
    requires i < |s.listeners|
  {
    match s.listeners[i].phase
    case Unborn => Spawn
    case Starting => Listen(i, false)
    case Accepting => AcceptHard(i)
    case _ => CheckErr(i)
  }

  lemma TowardsErrorStep(s: State, i: nat)
    requires Inv(s) && i < |s.listeners| && MaySee(s, i) && !s.listeners[i].sawLive
    ensures var e := TowardsError(s, i);
            Enabled(s, e) && Private(s, Apply(s, e)) && MaySee(Apply(s, e), i)
            && (Apply(s, e).listeners[i].sawLive || Distance(Apply(s, e), i) < Distance(s, i))
  {
    assert ListenerInv(s, i);
    StepKeepsInv(s, TowardsError(s, i));
  }

  lemma {:induction false} ReachError(s: State, i: nat) returns (es: seq<Event>)
    requires Inv(s) && i < |s.listeners| && MaySee(s, i)
    ensures Feasible(s, es) && Private(s, Exec(s, es)) && Exec(s, es).listeners[i].sawLive
    decreases !s.listeners[i].sawLive, Distance(s, i)
  {
    hide Inv, Enabled, Apply, MaySee, Distance, TowardsError;
    if s.listeners[i].sawLive {
      return [];
    }
    var e := TowardsError(s, i);
    TowardsErrorStep(s, i);
    var rest := ReachError(Apply(s, e), i);
    First(s, e, rest);
    es := [e] + rest;
  }

  /** The next step towards a failure of listener `i` while it is serving. */
  function TowardsLeaving(s: State, i: nat): Event
    requires i < |s.listeners|
  {
    match s.listeners[i].phase
    case Unborn => Spawn
    case Starting => Listen(i, true)
    case _ => if s.listeners[i].conns == [] then Accept(i, 0) else AcceptHard(i)
  }

  predicate SameSeen(s: State, t: State) {
    |t.listeners| == |s.listeners|
    && forall j :: 0 <= j < |s.listeners| ==> t.listeners[j].sawLive == s.listeners[j].sawLive
  }

  lemma TowardsLeavingStep(s: State, i: nat)
    requires Inv(s) && i < |s.listeners| && MayLeave(s, i) && !Past(s.listeners[i].phase)
    ensures var e := TowardsLeaving(s, i);
            Enabled(s, e) && Private(s, Apply(s, e)) && SameSeen(s, Apply(s, e)) && MayLeave(Apply(s, e), i)
            && Distance(Apply(s, e), i) < Distance(s, i)
  {
    assert ListenerInv(s, i);
    StepKeepsInv(s, TowardsLeaving(s, i));
  }

  lemma {:induction false} ReachLeaving(s: State, i: nat) returns (es: seq<Event>)
    requires Inv(s) && i < |s.listeners| && MayLeave(s, i)
    ensures Feasible(s, es) && Private(s, Exec(s, es)) && SameSeen(s, Exec(s, es))
    ensures Past(Exec(s, es).listeners[i].phase) && Exec(s, es).listeners[i].conns != []
    decreases Distance(s, i)
  {
    hide Inv, Enabled, Apply, Distance, TowardsLeaving;
    if Past(s.listeners[i].phase) {
      return [];
    }
    hide MayLeave;
    var e := TowardsLeaving(s, i);
    TowardsLeavingStep(s, i);
    var rest := ReachLeaving(Apply(s, e), i);
    First(s, e, rest);
    es := [e] + rest;
  }

  // ----- Main results -----

  /** `Run` can still return nil if and only if main has not yet taken an error. */
  lemma NilExactly(n: nat, s: State)
    requires Reaches(Init(n), s)
    ensures (exists es :: Feasible(s, es) && Exec(s, es).main == RunReturned(None))
       <==> s.main.Spawning? || s.main.Selecting? || s.main == RunReturned(None)
  {
    ReachedInv(n, s);
    if exists es :: Feasible(s, es) && Exec(s, es).main == RunReturned(None) {
      var es :| Feasible(s, es) && Exec(s, es).main == RunReturned(None);
      if Taken(s.main).Some? { TakenStays(s, es); }
    }
    if Taken(s.main) == None {
      var es := CancelAndFinish(s);
    }
  }

  /** `Run` has returned nil although listener `i` sent an error. */
  predicate PassedOver(s: State, i: nat) {
    s.main == RunReturned(None) && i in s.errCh
  }

  /**
   The error of listener `i` can be passed over if and only if main has not yet
   taken an error, and the listener has seen one or can still see one: the
   context is live, and it has not left its accept loop other than by failing.
   */
  lemma PassedOverExactly(n: nat, s: State, i: nat)
    requires Reaches(Init(n), s) && i < n
    ensures |s.listeners| == n
    ensures (exists es :: Feasible(s, es) && PassedOver(Exec(s, es), i))
       <==> (s.main.Spawning? || s.main.Selecting? || s.main == RunReturned(None)) && MaySee(s, i)
  {
    ReachedInv(n, s);
    if exists es :: Feasible(s, es) && PassedOver(Exec(s, es), i) {
      var es :| Feasible(s, es) && PassedOver(Exec(s, es), i);
      RunNarrows(s, es, i);
      if Taken(s.main).Some? { TakenStays(s, es); }
      SentWasSeen(Exec(s, es), i);
    }
    if Taken(s.main) == None && MaySee(s, i) {
      var es := ReachError(s, i);
      var t := Exec(s, es);
      var more := CancelAndFinish(t);
      Follow(s, es, more);
      RunNarrows(t, more, i);
      SentWasSeen(Exec(t, more), i);
      assert PassedOver(Exec(s, es + more), i);
    }
  }

  /** Once `Run` has returned nil, the errors seen with a live context are the errors in the channel. */
  lemma SentWasSeen(t: State, i: nat)
    requires Inv(t) && i < |t.listeners| && t.main == RunReturned(None)
    ensures t.listeners[i].sawLive <==> i in t.errCh
  {
    assert ListenerInv(t, i);
  }

  /** An error that is in the channel can be passed over if and only if main has not yet taken another. */
  lemma QueuedErrorPassedOverExactly(n: nat, s: State, i: nat)
    requires Reaches(Init(n), s) && i in s.errCh
    ensures i < n
    ensures (exists es :: Feasible(s, es) && PassedOver(Exec(s, es), i))
       <==> s.main.Spawning? || s.main.Selecting? || s.main == RunReturned(None)
  {
    ReachedInv(n, s);
    var k :| 0 <= k < |s.errCh| && s.errCh[k] == i;
    assert ListenerInv(s, i);
    PassedOverExactly(n, s, i);
  }

  /** `Run` has returned while connections of listener `i` are still being served. */
  predicate LeavesServing(s: State, i: nat) {
    s.main.RunReturned? && i < |s.listeners| && s.listeners[i].conns != []
  }

  /** No listener has found an error while the context was live. */
  predicate NothingSeen(s: State) {
    forall i :: 0 <= i < |s.listeners| ==> !s.listeners[i].sawLive
  }

  lemma LeavingAllowed(t: State, i: nat)
    requires Inv(t) && LeavesServing(t, i)
    ensures MayLeave(t, i)
  {
    assert t.listeners[i].phase.Finished?;
  }

  /** From a state that allows it, `Run` can leave listener `i` serving, and no error is taken or seen on the way. */
  lemma LeaveServing(s: State, i: nat) returns (es: seq<Event>)
    requires Inv(s) && i < |s.listeners| && MayLeave(s, i)
    ensures Feasible(s, es) && LeavesServing(Exec(s, es), i)
    ensures Taken(Exec(s, es).main) == Taken(s.main) && SameSeen(s, Exec(s, es)) && Inv(Exec(s, es))
  {
    hide Inv, MayLeave;
    var first := ReachLeaving(s, i);
    var t := Exec(s, first);
    PrivateInv(s, t);
    var more := CancelAndFinish(t);
    Follow(s, first, more);
    RunKeepsInv(t, more);
    es := first + more;
  }

  lemma PrivateInv(s: State, t: State)
    requires Private(s, t)
    ensures Inv(t)
  {
  }

  /**
   `Run` can return with connections of listener `i` still being served if and
   only if the listener has already returned with connections, or the context is
   live and it can still fail in its accept loop.
   */
  lemma LeftServingExactly(n: nat, s: State, i: nat)
    requires Reaches(Init(n), s) && i < n
    ensures |s.listeners| == n
    ensures (exists es :: Feasible(s, es) && LeavesServing(Exec(s, es), i)) <==> MayLeave(s, i)
  {
    ReachedInv(n, s);
    if exists es :: Feasible(s, es) && LeavesServing(Exec(s, es), i) {
      var es :| Feasible(s, es) && LeavesServing(Exec(s, es), i);
      RunNarrows(s, es, i);
      LeavingAllowed(Exec(s, es), i);
    }
    if MayLeave(s, i) {
      var es := LeaveServing(s, i);
    }
  }

  /** `Run` has returned nil, no error was sent, and connections of listener `i` are still being served. */
  predicate LeavesSilently(s: State, i: nat) {
    LeavesServing(s, i) && s.main == RunReturned(None) && s.errCh == []
  }

  /**
   This can go unreported: `Run` can return nil with no error sent and with
   connections of listener `i` still being served if and only if the state
   allows leaving them and no listener has yet seen an error on a live context.
   A hard accept error, and the caller's cancel before it is looked at, suffice.
   */
  lemma LeftSilentlyExactly(n: nat, s: State, i: nat)
    requires Reaches(Init(n), s) && i < n
    ensures |s.listeners| == n
    ensures (exists es :: Feasible(s, es) && LeavesSilently(Exec(s, es), i)) <==> MayLeave(s, i) && NothingSeen(s)
  {
    ReachedInv(n, s);
    if exists es :: Feasible(s, es) && LeavesSilently(Exec(s, es), i) {
      var es :| Feasible(s, es) && LeavesSilently(Exec(s, es), i);
      RunNarrows(s, es, i);
      LeavingAllowed(Exec(s, es), i);
      forall j | 0 <= j < n
        ensures !s.listeners[j].sawLive
      {
        RunNarrows(s, es, j);
        SentWasSeen(Exec(s, es), j);
      }
    }
    if MayLeave(s, i) && NothingSeen(s) {
      var es := LeaveServing(s, i);
      SilentIfNothingSeen(s, Exec(s, es));
      assert LeavesSilently(Exec(s, es), i);
    }
  }

  lemma SilentIfNothingSeen(s: State, t: State)
    requires Inv(s) && Inv(t) && NothingSeen(s) && SameSeen(s, t)
    requires t.main.RunReturned? && Taken(t.main) == Taken(s.main)
    ensures t.main == RunReturned(None) && t.errCh == []
  {
    if Taken(s.main).Some? { TakenWasSeen(s); }
    if t.errCh != [] { QueuedWasSeen(t); }
  }

  lemma TakenWasSeen(s: State)
    requires Inv(s) && Taken(s.main).Some?
    ensures Taken(s.main).value < |s.listeners| && s.listeners[Taken(s.main).value].sawLive
  {
    assert ListenerInv(s, Taken(s.main).value);
  }

  lemma QueuedWasSeen(t: State)
    requires Inv(t) && t.errCh != []
    ensures t.errCh[0] < |t.listeners| && t.listeners[t.errCh[0]].sawLive
  {
    assert ListenerInv(t, t.errCh[0]);
  }

  /** So a server with any number of listeners may stop without a word while it is still serving. */
  lemma ServersCanStopSilently(n: nat, i: nat)
    requires i < n
    ensures exists es :: Feasible(Init(n), es) && LeavesSilently(Exec(Init(n), es), i)
  {
    Reached(Init(n));
    LeftSilentlyExactly(n, Init(n), i);
  }
}
