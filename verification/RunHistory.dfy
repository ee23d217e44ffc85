/**
 What the events of a run say about its end: `Run` and `runListener` in
 internal/server/server.go, without looking at channels, phases or flags.
 */
module RunHistory {
  import opened ByteStrings
  import opened RunProtocol

  // ----- What can be read off the events -----

  /** The listeners that sent an error, in the order of sending. */
  function Sends(es: seq<Event>): seq<nat> {
    if es == [] then []
    else Sends(es[..|es| - 1]) + if es[|es| - 1].Send? then [es[|es| - 1].i] else []
  }

  /** The context is cancelled by the caller, by a listener, and by the return of `Run`. */
  predicate Cancels(e: Event) {
    e.Cancel? || e.CancelBy? || e.ReceiveDone? || e.ReturnErr?
  }

  predicate Live(es: seq<Event>) {
    forall k :: 0 <= k < |es| ==> !Cancels(es[k])
  }

  predicate Failed(es: seq<Event>, i: nat) {
    Listen(i, false) in es || AcceptHard(i) in es
  }

  /** Listener `i` failed, and found the context live afterwards. */
  predicate FailedLive(es: seq<Event>, i: nat) {
    exists k :: 0 <= k < |es| && es[k] == CheckErr(i) && Live(es[..k]) && Failed(es[..k], i)
  }

  /** The work of the connections listener `i` accepted. */
  function WorkAccepted(es: seq<Event>, i: nat): nat {
    if es == [] then 0
    else
      var e := es[|es| - 1];
      WorkAccepted(es[..|es| - 1], i) + if e.Accept? && e.i == i then e.work + 1 else 0
  }

  /** The work done by the connections of listener `i`. */
  function WorkDone(es: seq<Event>, i: nat): nat {
    if es == [] then 0
    else
      var e := es[|es| - 1];
      WorkDone(es[..|es| - 1], i) + if e.ConnStep? && e.i == i then 1 else 0
  }

  // ----- Prefixes of a run -----

  lemma {:induction false} LastStep(s: State, es: seq<Event>)
    requires Feasible(s, es) && es != []
    ensures var n := |es| - 1;
            Feasible(s, es[..n]) && Enabled(Exec(s, es[..n]), es[n]) && Exec(s, es) == Apply(Exec(s, es[..n]), es[n])
    decreases |es|
  {
    hide Enabled, Apply;
    var n := |es| - 1;
    if n == 0 {
      assert es[..0] == [] && es[1..] == [];
    } else {
      LastStep(Apply(s, es[0]), es[1..]);
      assert es[1..][..n - 1] == es[..n][1..];
      assert es[1..][n - 1] == es[n];
    }
  }

  // ----- The error channel -----

  /** The error taken, if any, and those still in the channel. */
  function Held(s: State): seq<nat> {
    match s.main
    case WaitingDone(err) => [err] + s.errCh
    case RunReturned(Some(err)) => [err] + s.errCh
    case _ => s.errCh
  }

  lemma ListenerStepHolds(s: State, e: Event)
    requires Inv(s) && Enabled(s, e) && OfListener(e)
    ensures Apply(s, e).main == s.main && Apply(s, e).errCh == s.errCh + if e.Send? then [e.i] else []
  {
    hide Inv, StepListener;
    if e.Send? { RoomToSend(s, e.i); }
    assert s.errCh + [] == s.errCh;
  }

  lemma MainStepHolds(s: State, e: Event)
    requires Enabled(s, e) && !OfListener(e)
    ensures Held(Apply(s, e)) == Held(s)
  {
    hide StepListener;
    if e.ReceiveErr? {
      assert s.errCh == [s.errCh[0]] + s.errCh[1..];
    }
  }

  lemma StepHolds(s: State, e: Event)
    requires Inv(s) && Enabled(s, e)
    ensures Held(Apply(s, e)) == Held(s) + if e.Send? then [e.i] else []
  {
    hide Inv, Enabled, Apply;
    if OfListener(e) {
      ListenerStepHolds(s, e);
      assert forall x :: [x] + (s.errCh + if e.Send? then [e.i] else [])
                      == ([x] + s.errCh) + if e.Send? then [e.i] else [];
    } else {
      MainStepHolds(s, e);
      assert Held(s) + [] == Held(s);
    }
  }

  /** Nothing sent is lost, and errors are taken in the order they were sent. */
  lemma {:induction false} SentIsHeld(n: nat, es: seq<Event>)
    requires Feasible(Init(n), es)
    ensures var s := Exec(Init(n), es);
            Sends(es) == match s.main
                         case WaitingDone(err) => [err] + s.errCh
                         case RunReturned(Some(err)) => [err] + s.errCh
                         case _ => s.errCh
  {
    hide Inv, Enabled, Apply;
    if es != [] {
      var before := es[..|es| - 1];
      LastStep(Init(n), es);
      SentIsHeld(n, before);
      InitInv(n);
      RunKeepsInv(Init(n), before);
      StepHolds(Exec(Init(n), before), es[|es| - 1]);
      assert Held(Exec(Init(n), es)) == Sends(es);
    }
  }

  lemma {:induction false} FirstSend(es: seq<Event>)
    requires Sends(es) != []
    ensures exists k :: 0 <= k < |es| && es[k] == Send(Sends(es)[0]) && forall j :: 0 <= j < k ==> !es[j].Send?
  {
    var n := |es| - 1;
    var before := es[..n];
    if Sends(before) != [] {
      FirstSend(before);
      var k :| 0 <= k < n && before[k] == Send(Sends(before)[0]) && forall j :: 0 <= j < k ==> !before[j].Send?;
      assert es[k] == before[k] && forall j :: 0 <= j < k ==> es[j] == before[j];
    } else {
      NoSend(before);
      assert forall j :: 0 <= j < n ==> es[j] == before[j];
    }
  }

  lemma {:induction false} NoSend(es: seq<Event>)
    ensures Sends(es) == [] <==> forall j :: 0 <= j < |es| ==> !es[j].Send?
  {
    if es != [] {
      NoSend(es[..|es| - 1]);
      assert forall j :: 0 <= j < |es| - 1 ==> es[j] == es[..|es| - 1][j];
    }
  }

  // ----- What each step adds -----

  /** Everything the state knows that the events can tell about listener `i`. */
  predicate Remembers(s: State, es: seq<Event>, i: nat)
    requires i < |s.listeners|
  {
    var l := s.listeners[i];
    && (l.phase.Finished? <==> Done(i) in es)
    && (l.viaBreak <==> AcceptCancelled(i) in es)
    && (l.phase.Unborn? || l.phase.Starting? || l.phase.Accepting? || l.phase.Draining? ==> !Failed(es, i))
    && (l.phase.Returned? ==> (l.phase.failed <==> Failed(es, i)))
    && (l.sawLive <==> FailedLive(es, i))
    && Work(l.conns) + WorkDone(es, i) == WorkAccepted(es, i)
  }

  lemma LiveSnoc(es: seq<Event>, e: Event)
    ensures Live(es + [e]) <==> Live(es) && !Cancels(e)
  {
    assert forall k :: 0 <= k < |es| ==> (es + [e])[k] == es[k];
    assert (es + [e])[|es|] == e;
  }

  lemma FailedLiveSnoc(es: seq<Event>, e: Event, i: nat)
    ensures FailedLive(es + [e], i) <==> FailedLive(es, i) || (e == CheckErr(i) && Live(es) && Failed(es, i))
  {
    var all := es + [e];
    assert forall k :: 0 <= k <= |es| ==> all[..k] == es[..k];
    assert es[..|es|] == es && all[|es|] == e;
    if FailedLive(es, i) {
      var k :| 0 <= k < |es| && es[k] == CheckErr(i) && Live(es[..k]) && Failed(es[..k], i);
      assert all[k] == CheckErr(i) && all[..k] == es[..k];
    }
    if FailedLive(all, i) {
      var k :| 0 <= k < |all| && all[k] == CheckErr(i) && Live(all[..k]) && Failed(all[..k], i);
      assert k < |es| ==> es[k] == CheckErr(i) && all[..k] == es[..k];
    }
  }

  lemma CancelStep(s: State, e: Event)
    requires Enabled(s, e)
    ensures Apply(s, e).cancelled <==> s.cancelled || Cancels(e)
    ensures Apply(s, e).main == RunReturned(None) <==> s.main == RunReturned(None) || e == ReceiveDone
    ensures (exists err :: Apply(s, e).main == RunReturned(Some(err)))
       <==> (exists err :: s.main == RunReturned(Some(err))) || e == ReturnErr
  {
    if e == ReturnErr {
      assert Apply(s, e).main == RunReturned(Some(s.main.err));
    }
  }

  lemma OwnRoutineStep(s: State, e: Event, i: nat)
    requires Enabled(s, e) && i < |s.listeners| && OfListener(e)
    ensures |Apply(s, e).listeners| == |s.listeners|
    ensures Apply(s, e).listeners[i] == if e.i == i then StepListener(s, e, s.listeners[i]) else s.listeners[i]
  {
    hide StepListener;
  }

  lemma MainRoutineStep(s: State, e: Event, i: nat)
    requires Enabled(s, e) && i < |s.listeners| && !OfListener(e)
    ensures |Apply(s, e).listeners| == |s.listeners|
    ensures Apply(s, e).listeners[i]
         == if e.Spawn? && s.main.next == i then s.listeners[i].(phase := Starting) else s.listeners[i]
  {
    hide StepListener;
  }

  /** What a step does to one listener. */
  lemma RoutineStep(s: State, e: Event, i: nat)
    requires Enabled(s, e) && i < |s.listeners|
    ensures |Apply(s, e).listeners| == |s.listeners|
    ensures Apply(s, e).listeners[i]
         == if OfListener(e) then (if e.i == i then StepListener(s, e, s.listeners[i]) else s.listeners[i])
            else if e.Spawn? && s.main.next == i then s.listeners[i].(phase := Starting)
            else s.listeners[i]
  {
    hide Apply, StepListener;
    if OfListener(e) { OwnRoutineStep(s, e, i); } else { MainRoutineStep(s, e, i); }
  }

  lemma FlagStep(s: State, e: Event, i: nat)
    requires i < |s.listeners| && ListenerInv(s, i) && Enabled(s, e)
    ensures e == CheckErr(i) ==> s.listeners[i].phase.Returned?
    ensures var (l, m) := (s.listeners[i], Apply(s, e).listeners[i]);
            && (m.phase.Finished? <==> l.phase.Finished? || e == Done(i))
            && (m.viaBreak <==> l.viaBreak || e == AcceptCancelled(i))
            && (m.sawLive <==> l.sawLive || (e == CheckErr(i) && l.phase == Returned(true) && !s.cancelled))
  {
    hide Apply;
    RoutineStep(s, e, i);
  }

  /** A listener that has not returned has not failed; one that has just returned knows whether it did. */
  lemma FailStep(s: State, e: Event, es: seq<Event>, i: nat)
    requires i < |s.listeners| && ListenerInv(s, i) && Enabled(s, e)
    requires var p := s.listeners[i].phase;
             && (p.Unborn? || p.Starting? || p.Accepting? || p.Draining? ==> !Failed(es, i))
             && (p.Returned? ==> (p.failed <==> Failed(es, i)))
    ensures var p := Apply(s, e).listeners[i].phase;
            && (p.Unborn? || p.Starting? || p.Accepting? || p.Draining? ==> !Failed(es + [e], i))
            && (p.Returned? ==> (p.failed <==> Failed(es + [e], i)))
  {
    hide Apply;
    RoutineStep(s, e, i);
  }

  lemma ConnsStep(s: State, e: Event, i: nat)
    requires Enabled(s, e) && i < |s.listeners|
    ensures Work(Apply(s, e).listeners[i].conns) + (if e.ConnStep? && e.i == i then 1 else 0)
         == Work(s.listeners[i].conns) + if e.Accept? && e.i == i then e.work + 1 else 0
  {
    hide Work, StepConn, Apply;
    RoutineStep(s, e, i);
    if e.Accept? {
      WorkSnoc(s.listeners[e.i].conns, e.work);
    } else if e.ConnStep? {
      WorkStep(s.listeners[e.i].conns, e.c);
    }
  }

  lemma EachInv(s: State, i: nat)
    requires Inv(s) && i < |s.listeners|
    ensures ListenerInv(s, i)
  {
  }

  lemma RememberStep(s: State, es: seq<Event>, e: Event, i: nat)
    requires Inv(s) && Enabled(s, e) && i < |s.listeners| && Remembers(s, es, i) && (s.cancelled <==> !Live(es))
    ensures |Apply(s, e).listeners| == |s.listeners| && Remembers(Apply(s, e), es + [e], i)
  {
    hide Inv, Enabled, Apply, Live, Failed, FailedLive, Work, ListenerInv;
    StepKeepsInv(s, e);
    EachInv(s, i);
    FlagStep(s, e, i);
    FailStep(s, e, es, i);
    ConnsStep(s, e, i);
    FailedLiveSnoc(es, e, i);
    assert (es + [e])[..|es|] == es && (es + [e])[|es|] == e;
  }

  /** What the state of a run knows is what its events say. */
  lemma {:induction false} History(n: nat, es: seq<Event>)
    requires Feasible(Init(n), es)
    ensures var s := Exec(Init(n), es);
            && Inv(s) && |s.listeners| == n
            && (s.cancelled <==> !Live(es))
            && (s.main == RunReturned(None) <==> ReceiveDone in es)
            && ((exists err :: s.main == RunReturned(Some(err))) <==> ReturnErr in es)
            && forall i :: 0 <= i < n ==> Remembers(s, es, i)
  {
    hide Inv, Enabled, Apply, Remembers, Live;
    if es == [] {
      NothingYet(n);
    } else {
      var before, e := es[..|es| - 1], es[|es| - 1];
      assert es == before + [e];
      LastStep(Init(n), es);
      History(n, before);
      var s := Exec(Init(n), before);
      StepKeepsInv(s, e);
      CancelStep(s, e);
      LiveSnoc(before, e);
      forall i | 0 <= i < n
        ensures Remembers(Apply(s, e), es, i)
      {
        RememberStep(s, before, e, i);
      }
    }
  }

  lemma NothingYet(n: nat)
    ensures Inv(Init(n)) && Live([]) && forall i :: 0 <= i < n ==> Remembers(Init(n), [], i)
  {
  }

  // ----- Main results -----

  /** If `Run` returns an error, it is the first error that was sent. */
  lemma FirstErrorReturned(n: nat, es: seq<Event>, i: nat)
    requires Feasible(Init(n), es) && Exec(Init(n), es).main == RunReturned(Some(i))
    ensures exists k :: 0 <= k < |es| && es[k] == Send(i) && forall j :: 0 <= j < k ==> !es[j].Send?
  {
    SentIsHeld(n, es);
    FirstSend(es);
  }

  lemma {:induction false} SendsAreEvents(es: seq<Event>, i: nat)
    ensures i in Sends(es) <==> Send(i) in es
  {
    if es != [] {
      SendsAreEvents(es[..|es| - 1], i);
      assert es == es[..|es| - 1] + [es[|es| - 1]];
    }
  }

  /**
   A run after which `Run` has returned, by its events alone: every listener has
   announced its end; the errors sent are those of the listeners that failed
   and then found the context live; and a listener that left its loop because
   the context was cancelled has had all the work of its connections done.
   */
  lemma ReturnedRun(n: nat, es: seq<Event>)
    requires Feasible(Init(n), es) && Exec(Init(n), es).main.RunReturned?
    ensures forall i: nat :: i < n ==> Done(i) in es
    ensures forall i: nat :: i < n ==> (Send(i) in es <==> FailedLive(es, i))
    ensures forall i: nat :: i < n && AcceptCancelled(i) in es ==> WorkDone(es, i) == WorkAccepted(es, i)
  {
    hide Inv;
    History(n, es);
    EveryRunIsSafe(n, es);
    SentIsHeld(n, es);
    var s := Exec(Init(n), es);
    forall i: nat | i < n
      ensures Done(i) in es && (Send(i) in es <==> FailedLive(es, i))
      ensures AcceptCancelled(i) in es ==> WorkDone(es, i) == WorkAccepted(es, i)
    {
      assert Remembers(s, es, i) && DrainsBeforeLeaving(s.listeners[i]) && s.listeners[i].phase.Finished?;
      SendsAreEvents(es, i);
    }
  }

  /** Which of the two results `Run` has returned is decided by the event main took last. */
  lemma ResultByEvents(n: nat, es: seq<Event>)
    requires Feasible(Init(n), es)
    ensures Exec(Init(n), es).main == RunReturned(None) <==> ReceiveDone in es
    ensures (exists i :: Exec(Init(n), es).main == RunReturned(Some(i))) <==> ReturnErr in es
    ensures Exec(Init(n), es).cancelled <==> !Live(es)
  {
    History(n, es);
  }
}
