/**
 Starting and stopping the server: `Run` and `runListener` in
 internal/server/server.go, as a transition system over every interleaving of
 the main goroutine, one goroutine per listener, the goroutines that close the
 sockets and the `done` channel, and one goroutine per connection.
 */
module RunProtocol {
  import opened ByteStrings

  /** Where a listener goroutine is. */
  datatype Phase =
    | Unborn                  // the loop in Run has not reached it
    | Starting                // about to call net.Listen
    | Accepting               // in the accept loop
    | Draining                // left the loop on a cancelled context; waiting for its connections
    | Returned(failed: bool)  // runListener has returned, with an error or nil
    | Sending                 // saw an error and a live context; about to send on errCh
    | Cancelling              // about to call cancel
    | Exiting                 // about to call wg.Done
    | Finished

  datatype Routine = Routine(
    phase: Phase,
    socketOpen: bool,
    conns: seq<nat>,   // running connections, by the work each has left
    viaBreak: bool,    // left the accept loop because the context was cancelled
    sawLive: bool)     // found an error while the context was live

  datatype Main =
    | Spawning(next: nat)
    | Selecting
    | WaitingDone(err: nat)
    | RunReturned(result: Option<nat>)

  /** An error is named by the listener that produced it. */
  datatype State = State(
    cancelled: bool,
    listeners: seq<Routine>,
    errCh: seq<nat>,
    dropped: bool,     // some send took its default branch
    doneClosed: bool,
    main: Main)

  datatype Event =
    | Cancel                       // the caller's context
    | Spawn                        // main: next go statement, or on to the select
    | Listen(i: nat, ok: bool)
    | Accept(i: nat, work: nat)
    | AcceptTemporary(i: nat)      // a temporary error: sleep and go on
    | AcceptHard(i: nat)           // any other error, context live
    | AcceptCancelled(i: nat)      // any error, context cancelled
    | CloseSocket(i: nat)          // the goroutine that waits for ctx.Done
    | ConnStep(i: nat, c: nat)
    | WaitConns(i: nat)            // wg.Wait of runListener returns
    | CheckErr(i: nat)             // err != nil && ctx.Err() == nil
    | Send(i: nat)
    | CancelBy(i: nat)
    | Done(i: nat)
    | CloseDone                    // wg.Wait of Run returns
    | ReceiveErr
    | ReceiveDone
    | ReturnErr

  const NEWBORN := Routine(Unborn, false, [], false, false)

  function Init(n: nat): State {
    State(false, seq(n, _ => NEWBORN), [], false, false, Spawning(0))
  }

  predicate AllFinished(s: State) {
    forall i :: 0 <= i < |s.listeners| ==> s.listeners[i].phase.Finished?
  }

  predicate At(s: State, i: nat, phase: Phase) {
    i < |s.listeners| && s.listeners[i].phase == phase
  }

  predicate Enabled(s: State, e: Event) {
    match e
    case Cancel => !s.cancelled
    case Spawn => s.main.Spawning?
    case Listen(i, _) => At(s, i, Starting)
    case Accept(i, _) => At(s, i, Accepting) && s.listeners[i].socketOpen
    case AcceptTemporary(i) => At(s, i, Accepting) && !s.cancelled
    case AcceptHard(i) => At(s, i, Accepting) && !s.cancelled
    case AcceptCancelled(i) => At(s, i, Accepting) && s.cancelled
    case CloseSocket(i) => i < |s.listeners| && s.listeners[i].socketOpen && s.cancelled
    case ConnStep(i, c) => i < |s.listeners| && c < |s.listeners[i].conns|
    case WaitConns(i) => At(s, i, Draining) && s.listeners[i].conns == []
    case CheckErr(i) => i < |s.listeners| && s.listeners[i].phase.Returned?
    case Send(i) => At(s, i, Sending)
    case CancelBy(i) => At(s, i, Cancelling)
    case Done(i) => At(s, i, Exiting)
    case CloseDone => !s.main.Spawning? && AllFinished(s) && !s.doneClosed
    case ReceiveErr => s.main.Selecting? && s.errCh != []
    case ReceiveDone => s.main.Selecting? && s.doneClosed
    case ReturnErr => s.main.WaitingDone? && s.doneClosed
  }

  function Set(s: State, i: nat, l: Routine): State
    requires i < |s.listeners|
  {
    s.(listeners := s.listeners[i := l])
  }

  /** One step of a connection: it works, or it is done and gone. */
  function StepConn(conns: seq<nat>, c: nat): seq<nat>
    requires c < |conns|
  {
    if conns[c] > 0 then conns[c := conns[c] - 1] else conns[..c] + conns[c + 1..]
  }

  /** What a step does to the listener that takes it. */
  function StepListener(s: State, e: Event, l: Routine): Routine
    requires e.ConnStep? ==> e.c < |l.conns|
  {
    match e
    case Listen(_, ok) => if ok then l.(phase := Accepting, socketOpen := true) else l.(phase := Returned(true))
    case Accept(_, work) => l.(conns := l.conns + [work])
    case AcceptHard(_) => l.(phase := Returned(true), socketOpen := false)
    case AcceptCancelled(_) => l.(phase := Draining, viaBreak := true)
    case CloseSocket(_) => l.(socketOpen := false)
    case ConnStep(_, c) => l.(conns := StepConn(l.conns, c))
    case WaitConns(_) => l.(phase := Returned(false), socketOpen := false)
    case CheckErr(_) =>
      if l.phase == Returned(true) && !s.cancelled then l.(phase := Sending, sawLive := true)
      else l.(phase := Exiting)
    case Send(_) => l.(phase := Cancelling)
    case CancelBy(_) => l.(phase := Exiting)
    case Done(_) => l.(phase := Finished)
    case _ => l
  }

  predicate OfListener(e: Event) {
    !(e.Cancel? || e.Spawn? || e.CloseDone? || e.ReceiveErr? || e.ReceiveDone? || e.ReturnErr?)
  }

  function Apply(s: State, e: Event): State
    requires Enabled(s, e)
  {
    match e
    case Cancel => s.(cancelled := true)
    case Spawn =>
      var k := s.main.next;
      if k < |s.listeners| then
        Set(s, k, s.listeners[k].(phase := Starting)).(main := Spawning(k + 1))
      else s.(main := Selecting)
    case CloseDone => s.(doneClosed := true)
    case ReceiveErr => s.(main := WaitingDone(s.errCh[0]), errCh := s.errCh[1..])
    case ReceiveDone => s.(main := RunReturned(None), cancelled := true)
    case ReturnErr => s.(main := RunReturned(Some(s.main.err)), cancelled := true)
    case _ =>
      var t := Set(s, e.i, StepListener(s, e, s.listeners[e.i]));
      if e.Send? then
        if |s.errCh| < |s.listeners| then t.(errCh := s.errCh + [e.i]) else t.(dropped := true)
      else if e.CancelBy? then t.(cancelled := true)
      else t
  }

  // ----- Runs -----

  predicate Feasible(s: State, es: seq<Event>)
    decreases |es|
  {
    es == [] || (Enabled(s, es[0]) && Feasible(Apply(s, es[0]), es[1..]))
  }

  function Exec(s: State, es: seq<Event>): State
    requires Feasible(s, es)
    decreases |es|
  {
    if es == [] then s else Exec(Apply(s, es[0]), es[1..])
  }

  // ----- Invariant -----

  predicate Sent(l: Routine) {
    l.sawLive && (l.phase.Cancelling? || l.phase.Exiting? || l.phase.Finished?)
  }

  /** The error main has taken from the channel. */
  function Taken(m: Main): Option<nat> {
    match m
    case WaitingDone(err) => Some(err)
    case RunReturned(result) => result
    case _ => None
  }

  /** runListener has returned. */
  predicate Past(p: Phase) {
    p.Returned? || p.Sending? || p.Cancelling? || p.Exiting? || p.Finished?
  }

  predicate ListenerInv(s: State, i: nat)
    requires i < |s.listeners|
  {
    var l := s.listeners[i];
    && (l.phase.Unborn? <==> s.main.Spawning? && s.main.next <= i)
    && (l.phase.Unborn? || l.phase.Starting? ==> !l.socketOpen && l.conns == [] && !l.viaBreak && !l.sawLive)
    && (l.phase.Accepting? ==> !l.viaBreak && !l.sawLive && (l.socketOpen || s.cancelled))
    && (l.phase.Draining? ==> l.viaBreak && !l.sawLive)
    && (l.viaBreak ==> s.cancelled && (l.phase.Draining? || l.conns == []))
    && (l.phase.Returned? ==> !l.sawLive && (l.phase.failed <==> !l.viaBreak))
    && (l.phase.Sending? || l.phase.Cancelling? ==> l.sawLive)
    && (Past(l.phase) ==> !l.socketOpen)
    && (l.sawLive ==> !l.viaBreak)
    && (Sent(l) <==> i in s.errCh || Taken(s.main) == Some(i))
  }

  predicate NoRepeats(q: seq<nat>) {
    forall i, j :: 0 <= i < j < |q| ==> q[i] != q[j]
  }

  predicate Inv(s: State) {
    && !s.dropped
    && (forall i :: 0 <= i < |s.listeners| ==> ListenerInv(s, i))
    && NoRepeats(s.errCh)
    && (forall k :: 0 <= k < |s.errCh| ==> s.errCh[k] < |s.listeners| && Taken(s.main) != Some(s.errCh[k]))
    && (Taken(s.main).Some? ==> Taken(s.main).value < |s.listeners|)
    && (s.main.Spawning? ==> s.main.next <= |s.listeners| && !s.doneClosed)
    && (s.doneClosed ==> AllFinished(s))
    && (s.main.RunReturned? ==> s.doneClosed && s.cancelled)
  }

  // ----- Capacity of the error channel -----

  lemma {:induction false} Pigeonhole(q: seq<nat>, n: nat)
    requires NoRepeats(q) && forall k :: 0 <= k < |q| ==> q[k] < n
    ensures |q| <= n
  {
    var values := set k | 0 <= k < |q| :: q[k];
    Distinct(q);
    Below(values, n);
  }

  lemma {:induction false} Distinct(q: seq<nat>)
    requires NoRepeats(q)
    ensures |set k | 0 <= k < |q| :: q[k]| == |q|
  {
    if q != [] {
      var n := |q| - 1;
      var init := q[..n];
      Distinct(init);
      var before := set k | 0 <= k < |init| :: init[k];
      assert (set k | 0 <= k < |q| :: q[k]) == before + {q[n]};
      assert q[n] !in before;
    }
  }

  lemma {:induction false} Below(values: set<nat>, n: nat)
    requires forall v :: v in values ==> v < n
    ensures |values| <= n
  {
    if n == 0 {
      assert values == {};
    } else {
      Below(values - {n - 1}, n - 1);
      if n - 1 in values {
        assert values == (values - {n - 1}) + {n - 1};
      } else {
        assert values == values - {n - 1};
      }
    }
  }

  /** A listener that is about to send finds room: every error in the channel is someone else's. */
  lemma RoomToSend(s: State, i: nat)
    requires Inv(s) && At(s, i, Sending)
    ensures |s.errCh| < |s.listeners|
  {
    assert ListenerInv(s, i);
    var q := s.errCh + [i];
    assert i !in s.errCh;
    Pigeonhole(q, |s.listeners|);
  }

  // ----- Every step keeps the invariant -----

  lemma InitInv(n: nat)
    ensures Inv(Init(n))
  {
  }

  lemma MainStepListener(s: State, e: Event, i: nat)
    requires Inv(s) && Enabled(s, e) && !OfListener(e) && i < |s.listeners|
    ensures ListenerInv(Apply(s, e), i)
  {
    assert ListenerInv(s, i);
    if e.ReceiveErr? {
      assert s.errCh == [s.errCh[0]] + Apply(s, e).errCh;
    }
  }

  lemma MainStepKeepsInv(s: State, e: Event)
    requires Inv(s) && Enabled(s, e) && !OfListener(e)
    ensures Inv(Apply(s, e))
  {
    hide ListenerInv;
    var t := Apply(s, e);
    forall i | 0 <= i < |t.listeners|
      ensures ListenerInv(t, i)
    {
      MainStepListener(s, e, i);
    }
  }

  /** The listener that takes a step keeps its part of the invariant. */
  lemma OwnStepKeepsInv(s: State, e: Event)
    requires Inv(s) && Enabled(s, e) && OfListener(e)
    ensures ListenerInv(Apply(s, e), e.i)
  {
    assert ListenerInv(s, e.i);
    if e.Send? { RoomToSend(s, e.i); }
  }

  /** The others do not notice. */
  lemma OtherStepKeepsInv(s: State, e: Event, i: nat)
    requires Inv(s) && Enabled(s, e) && OfListener(e) && i < |s.listeners| && i != e.i
    ensures ListenerInv(Apply(s, e), i)
  {
    hide StepListener;
    assert ListenerInv(s, i);
  }

  lemma ListenerStepKeepsInv(s: State, e: Event)
    requires Inv(s) && Enabled(s, e) && OfListener(e)
    ensures Inv(Apply(s, e))
  {
    hide ListenerInv;
    var t := Apply(s, e);
    forall i | 0 <= i < |t.listeners|
      ensures ListenerInv(t, i)
    {
      if i == e.i { OwnStepKeepsInv(s, e); } else { OtherStepKeepsInv(s, e, i); }
    }
    if e.Send? {
      RoomToSend(s, e.i);
      SenderIsNew(s, e.i);
    }
    if s.doneClosed {
      NotYetFinished(s, e);
    }
  }

  /** The error about to be sent is neither in the channel nor taken. */
  lemma SenderIsNew(s: State, i: nat)
    requires Inv(s) && At(s, i, Sending)
    ensures i !in s.errCh && Taken(s.main) != Some(i)
  {
    assert ListenerInv(s, i);
  }

  /** A finished listener takes no step but closing its socket or serving its connections. */
  lemma NotYetFinished(s: State, e: Event)
    requires Inv(s) && Enabled(s, e) && OfListener(e) && AllFinished(s)
    ensures AllFinished(Apply(s, e))
  {
    assert ListenerInv(s, e.i);
  }

  lemma StepKeepsInv(s: State, e: Event)
    requires Inv(s) && Enabled(s, e)
    ensures Inv(Apply(s, e)) && |Apply(s, e).listeners| == |s.listeners|
  {
    if OfListener(e) { ListenerStepKeepsInv(s, e); } else { MainStepKeepsInv(s, e); }
  }

  lemma {:induction false} RunKeepsInv(s: State, es: seq<Event>)
    requires Inv(s) && Feasible(s, es)
    ensures Inv(Exec(s, es)) && |Exec(s, es).listeners| == |s.listeners|
    decreases |es|
  {
    if es != [] {
      hide Inv, Enabled, Apply;
      StepKeepsInv(s, es[0]);
      RunKeepsInv(Apply(s, es[0]), es[1..]);
    }
  }

  // ----- Safety of every run -----

  /**
   In every interleaving, with any number of listeners and connections: no send
   takes its default branch; `Run` returns only when every listener goroutine
   has finished; an error it returns comes from a listener that found it while
   the context was live; a listener that left its loop on a cancelled context
   is done only when its connections are; and an error that was sent is either
   returned or still in the channel.
   */
  lemma EveryRunIsSafe(n: nat, es: seq<Event>)
    requires Feasible(Init(n), es)
    ensures var s := Exec(Init(n), es);
            && |s.listeners| == n && !s.dropped
            && (forall i :: 0 <= i < n ==> DrainsBeforeLeaving(s.listeners[i]))
            && (s.main.RunReturned? ==>
                  && AllFinished(s)
                  && (s.main.result.Some? ==>
                        s.main.result.value < n && s.listeners[s.main.result.value].sawLive)
                  && (forall i :: 0 <= i < n ==>
                        (s.listeners[i].sawLive <==> s.main.result == Some(i) || i in s.errCh)))
  {
    InitInv(n);
    RunKeepsInv(Init(n), es);
    var s := Exec(Init(n), es);
    forall i | 0 <= i < n
      ensures DrainsBeforeLeaving(s.listeners[i])
      ensures s.main.RunReturned? ==> (s.listeners[i].sawLive <==> s.main.result == Some(i) || i in s.errCh)
    {
      assert ListenerInv(s, i);
    }
    if s.main.RunReturned? && s.main.result.Some? {
      assert ListenerInv(s, s.main.result.value);
    }
  }

  /** A listener that left its loop on a cancelled context has no connection once it has returned. */
  predicate DrainsBeforeLeaving(l: Routine) {
    l.viaBreak && !l.phase.Draining? ==> l.conns == []
  }

  // ----- What the obvious claims overlook -----

  ghost predicate Reaches(s: State, t: State) {
    exists es :: Feasible(s, es) && Exec(s, es) == t
  }

  lemma Reached(s: State)
    ensures Reaches(s, s)
  {
    assert Feasible(s, []) && Exec(s, []) == s;
  }

  lemma {:induction false} Extend(s: State, es: seq<Event>, e: Event)
    requires Feasible(s, es) && Enabled(Exec(s, es), e)
    ensures Feasible(s, es + [e]) && Exec(s, es + [e]) == Apply(Exec(s, es), e)
    decreases |es|
  {
    if es == [] {
      assert es + [e] == [e];
      assert Feasible(Apply(s, e), [e][1..]);
    } else {
      assert (es + [e])[1..] == es[1..] + [e];
      Extend(Apply(s, es[0]), es[1..], e);
    }
  }

  lemma Step(s: State, t: State, e: Event, u: State)
    requires Reaches(s, t) && Enabled(t, e) && Apply(t, e) == u
    ensures Reaches(s, u)
  {
    var es :| Feasible(s, es) && Exec(s, es) == t;
    Extend(s, es, e);
  }

  /** A run of a server with one listener. */
  function One(cancelled: bool, l: Routine, errCh: seq<nat>, doneClosed: bool, main: Main): State {
    State(cancelled, [l], errCh, false, doneClosed, main)
  }

  /** From an error of its only listener, a server may come to the point where both channels are ready. */
  lemma BothReady(start: State, conns: seq<nat>)
    requires Reaches(start, One(false, Routine(Returned(true), false, conns, false, false), [], false, Selecting))
    ensures Reaches(start, One(true, Routine(Finished, false, conns, false, true), [0], true, Selecting))
  {
    hide Reaches;
    var s1 := One(false, Routine(Returned(true), false, conns, false, false), [], false, Selecting);
    var s2 := One(false, Routine(Sending, false, conns, false, true), [], false, Selecting);
    var s3 := One(false, Routine(Cancelling, false, conns, false, true), [0], false, Selecting);
    var s4 := One(true, Routine(Exiting, false, conns, false, true), [0], false, Selecting);
    var s5 := One(true, Routine(Finished, false, conns, false, true), [0], false, Selecting);
    Step(start, s1, CheckErr(0), s2);
    Step(start, s2, Send(0), s3);
    Step(start, s3, CancelBy(0), s4);
    Step(start, s4, Done(0), s5);
    Step(start, s5, CloseDone, s5.(doneClosed := true));
  }

  lemma OneStarts()
    ensures Reaches(Init(1), One(false, NEWBORN.(phase := Starting), [], false, Selecting))
  {
    var l := NEWBORN.(phase := Starting);
    Reached(Init(1));
    Step(Init(1), Init(1), Spawn, One(false, l, [], false, Spawning(1)));
    Step(Init(1), One(false, l, [], false, Spawning(1)), Spawn, One(false, l, [], false, Selecting));
  }

  /** With an error sent and the listeners finished, `Run` may still return nil. */
  lemma ErrorCanBePassedOver()
    ensures exists s :: Reaches(Init(1), s) && s.main == RunReturned(None)
                     && |s.listeners| == 1 && s.listeners[0].sawLive
  {
    hide Reaches;
    OneStarts();
    Step(Init(1), One(false, NEWBORN.(phase := Starting), [], false, Selecting), Listen(0, false),
         One(false, Routine(Returned(true), false, [], false, false), [], false, Selecting));
    BothReady(Init(1), []);
    var ready := One(true, Routine(Finished, false, [], false, true), [0], true, Selecting);
    Step(Init(1), ready, ReceiveDone, ready.(main := RunReturned(None)));
    assert ready.(main := RunReturned(None)).listeners[0].sawLive;
  }

  /** A hard accept error while the connection is being served. */
  lemma OneFailsServing()
    ensures Reaches(Init(1), One(false, Routine(Returned(true), false, [7], false, false), [], false, Selecting))
  {
    hide Reaches;
    OneStarts();
    var l := Routine(Accepting, true, [], false, false);
    var serving := l.(conns := [7]);
    assert l.conns + [7] == [7];
    Step(Init(1), One(false, NEWBORN.(phase := Starting), [], false, Selecting), Listen(0, true),
         One(false, l, [], false, Selecting));
    Step(Init(1), One(false, l, [], false, Selecting), Accept(0, 7), One(false, serving, [], false, Selecting));
    Step(Init(1), One(false, serving, [], false, Selecting), AcceptHard(0),
         One(false, serving.(phase := Returned(true), socketOpen := false), [], false, Selecting));
  }

  /** After a hard accept error `Run` may return while a connection is still being served. */
  lemma HardErrorLeavesConnections()
    ensures exists s :: Reaches(Init(1), s) && s.main == RunReturned(Some(0))
                     && |s.listeners| == 1 && s.listeners[0].conns == [7]
  {
    hide Reaches;
    OneFailsServing();
    BothReady(Init(1), [7]);
    var ready := One(true, Routine(Finished, false, [7], false, true), [0], true, Selecting);
    var waiting := One(true, ready.listeners[0], [], true, WaitingDone(0));
    Step(Init(1), ready, ReceiveErr, waiting);
    Step(Init(1), waiting, ReturnErr, waiting.(main := RunReturned(Some(0))));
    assert waiting.(main := RunReturned(Some(0))).listeners[0].conns == [7];
  }

  // ----- Shutting down -----

  function Work(conns: seq<nat>): nat {
    if conns == [] then 0 else conns[0] + 1 + Work(conns[1..])
  }

  function Rank(p: Phase): nat {
    match p
    case Unborn => 11
    case Starting => 10
    case Accepting => 8
    case Draining => 7
    case Returned(_) => 5
    case Sending => 4
    case Cancelling => 3
    case Exiting => 2
    case Finished => 0
  }

  function Weight(l: Routine): nat {
    Rank(l.phase) + (if l.socketOpen then 1 else 0) + Work(l.conns)
  }

  function TotalWeight(ls: seq<Routine>): nat {
    if ls == [] then 0 else Weight(ls[0]) + TotalWeight(ls[1..])
  }

  function MainRank(s: State): nat {
    match s.main
    case Spawning(k) => if k <= |s.listeners| then |s.listeners| - k + 3 else 3
    case Selecting => 2
    case WaitingDone(_) => 1
    case RunReturned(_) => 0
  }

  /** How much is left to do before everything has stopped. */
  function Measure(s: State): nat {
    TotalWeight(s.listeners) + MainRank(s) + if s.doneClosed then 0 else 1
  }

  lemma {:induction false} WeightUpdate(ls: seq<Routine>, i: nat, l: Routine)
    requires i < |ls|
    ensures TotalWeight(ls[i := l]) == TotalWeight(ls) - Weight(ls[i]) + Weight(l)
  {
    if i > 0 {
      assert ls[i := l][1..] == ls[1..][i - 1 := l];
      WeightUpdate(ls[1..], i - 1, l);
    } else {
      assert ls[0 := l][1..] == ls[1..];
    }
  }

  lemma {:induction false} WorkStep(conns: seq<nat>, c: nat)
    requires c < |conns|
    ensures Work(StepConn(conns, c)) == Work(conns) - 1
  {
    hide StepConn;
    if c == 0 {
      StepConnHead(conns);
    } else {
      WorkStep(conns[1..], c - 1);
      StepConnTail(conns, c);
    }
  }

  lemma StepConnHead(conns: seq<nat>)
    requires conns != []
    ensures var next := StepConn(conns, 0);
            if conns[0] == 0 then next == conns[1..]
            else next != [] && next[0] == conns[0] - 1 && next[1..] == conns[1..]
  {
  }

  lemma StepConnTail(conns: seq<nat>, c: nat)
    requires 0 < c < |conns|
    ensures var next := StepConn(conns, c);
            next != [] && next[0] == conns[0] && next[1..] == StepConn(conns[1..], c - 1)
  {
  }

  lemma WeightDrops(s: State, e: Event)
    requires Inv(s) && s.cancelled && Enabled(s, e) && !e.Accept? && OfListener(e)
    ensures Weight(StepListener(s, e, s.listeners[e.i])) < Weight(s.listeners[e.i])
  {
    assert ListenerInv(s, e.i);
    if e.ConnStep? { WorkStep(s.listeners[e.i].conns, e.c); }
  }

  lemma ListenerCountsDown(s: State, e: Event)
    requires Inv(s) && s.cancelled && Enabled(s, e) && !e.Accept? && OfListener(e)
    ensures Measure(Apply(s, e)) < Measure(s)
  {
    hide StepListener, Weight, Inv;
    WeightDrops(s, e);
    WeightUpdate(s.listeners, e.i, StepListener(s, e, s.listeners[e.i]));
  }

  /** Once the context is cancelled, every step except accepting one more connection brings the end nearer. */
  lemma StepsCountDown(s: State, e: Event)
    requires Inv(s) && s.cancelled && Enabled(s, e) && !e.Accept?
    ensures Measure(Apply(s, e)) < Measure(s)
  {
    if OfListener(e) {
      ListenerCountsDown(s, e);
    } else if e.Spawn? && s.main.next < |s.listeners| {
      var l := s.listeners[s.main.next];
      assert ListenerInv(s, s.main.next);
      WeightUpdate(s.listeners, s.main.next, l.(phase := Starting));
    }
  }

  /** Cancelled, every goroutine started, every socket closed. */
  predicate Closing(s: State) {
    s.cancelled && !s.main.Spawning?
    && forall i :: 0 <= i < |s.listeners| ==> !s.listeners[i].socketOpen && !s.listeners[i].phase.Starting?
  }

  lemma ClosingStays(s: State, e: Event)
    requires Inv(s) && Closing(s) && Enabled(s, e)
    ensures !e.Accept? && Closing(Apply(s, e)) && Inv(Apply(s, e))
  {
    if OfListener(e) {
      assert ListenerInv(s, e.i);
      ListenerStepKeepsInv(s, e);
    } else {
      MainStepKeepsInv(s, e);
    }
  }

  /** A step that accepts nothing, takes nothing from errCh, and serves only connections a listener waits for. */
  predicate Quiet(s: State, e: Event) {
    !e.Accept? && !e.ReceiveErr? && !e.Cancel?
    && (e.ConnStep? && e.i < |s.listeners| ==> s.listeners[e.i].phase.Draining?)
  }

  /**
   There is no deadlock: while `Run` has not returned from a cancelled context,
   the program itself has a step to take, and need not wait for the network.
   */
  lemma AlwaysAStep(s: State) returns (e: Event)
    requires Inv(s) && s.cancelled && !s.main.RunReturned?
    ensures Enabled(s, e) && Quiet(s, e)
    ensures e.AcceptCancelled? ==> !s.listeners[e.i].socketOpen
  {
    if s.main.Spawning? {
      return Spawn;
    }
    if AllFinished(s) {
      return if !s.doneClosed then CloseDone else if s.main.Selecting? then ReceiveDone else ReturnErr;
    }
    var i: nat :| i < |s.listeners| && !s.listeners[i].phase.Finished?;
    assert ListenerInv(s, i);
    var l := s.listeners[i];
    e := match l.phase
      case Starting => Listen(i, true)
      case Accepting => if l.socketOpen then CloseSocket(i) else AcceptCancelled(i)
      case Draining => if l.conns == [] then WaitConns(i) else ConnStep(i, 0)
      case Returned(_) => CheckErr(i)
      case Sending => Send(i)
      case Cancelling => CancelBy(i)
      case _ => Done(i);
  }

  lemma {:induction false} WorkSnoc(conns: seq<nat>, work: nat)
    ensures Work(conns + [work]) == Work(conns) + work + 1
  {
    if conns == [] {
      assert conns + [work] == [work];
    } else {
      assert (conns + [work])[1..] == conns[1..] + [work];
      WorkSnoc(conns[1..], work);
    }
  }

  /** Accepting a connection adds its work, and one, to what is left to do. */
  lemma AcceptAdds(s: State, e: Event)
    requires Enabled(s, e) && e.Accept?
    ensures Measure(Apply(s, e)) == Measure(s) + e.work + 1
  {
    WorkSnoc(s.listeners[e.i].conns, e.work);
    WeightUpdate(s.listeners, e.i, StepListener(s, e, s.listeners[e.i]));
  }

  /** The work of the connections accepted during a run. */
  function AcceptedWork(es: seq<Event>): nat {
    if es == [] then 0 else (if es[0].Accept? then es[0].work + 1 else 0) + AcceptedWork(es[1..])
  }

  function OtherSteps(es: seq<Event>): nat {
    if es == [] then 0 else (if es[0].Accept? then 0 else 1) + OtherSteps(es[1..])
  }

  /** Cancelling is for good. */
  lemma CancelledStays(s: State, e: Event)
    requires s.cancelled && Enabled(s, e)
    ensures Apply(s, e).cancelled
  {
  }

  /** After cancellation the steps are bounded by what was left to do and what was accepted since. */
  lemma {:induction false} ShutdownBound(s: State, es: seq<Event>)
    requires Inv(s) && s.cancelled && Feasible(s, es)
    ensures OtherSteps(es) + Measure(Exec(s, es)) <= Measure(s) + AcceptedWork(es)
    decreases |es|
  {
    hide Inv, Enabled, Apply, Measure;
    if es != [] {
      StepKeepsInv(s, es[0]);
      CancelledStays(s, es[0]);
      if es[0].Accept? { AcceptAdds(s, es[0]); } else { StepsCountDown(s, es[0]); }
      ShutdownBound(Apply(s, es[0]), es[1..]);
    }
  }

  /**
   Shutting down terminates: once the context is cancelled and the sockets are
   closed, no run is longer than the measure, and a run that can go no further
   has returned from `Run` with every listener finished.
   */
  lemma {:induction false} ShutdownTerminates(s: State, es: seq<Event>)
    requires Inv(s) && Closing(s) && Feasible(s, es)
    ensures |es| <= Measure(s) - Measure(Exec(s, es))
    ensures (forall e :: !Enabled(Exec(s, es), e)) ==> Exec(s, es).main.RunReturned? && AllFinished(Exec(s, es))
    decreases |es|
  {
    if es == [] {
      if !s.main.RunReturned? { var e := AlwaysAStep(s); }
    } else {
      ClosingStays(s, es[0]);
      StepsCountDown(s, es[0]);
      ShutdownTerminates(Apply(s, es[0]), es[1..]);
    }
  }
}
