// The reconnect automaton of the web RealtimeProvider effect
// (web/src/context/RealtimeContext.jsx). Unlike the mobile one it keeps the handle of a
// timer that has fired, and its error handler closes whatever stream `es` names.
module WebRealtime {
  import opened Text
  import opened Browser

  datatype State = State(stopped: bool, retry: Option<nat>, es: Option<nat>, world: World)

  // TokenSettled is keycloak.updateToken() resolving or rejecting, both of which lead on
  // to the test of keycloak.token.
  datatype Event =
    | TokenSettled(call: nat, hasToken: bool)
    | StreamError(stream: nat)
    | TimerFires(timer: nat)
    | Unmount

  function ClearTimeout(s: State): State {
    if s.retry.Some? then s.(world := s.world.Disarm(s.retry.value)) else s
  }

  function SetTimeout(s: State): State { s.(retry := Some(s.world.next), world := s.world.Arm()) }

  function CloseStream(s: State): State {
    if s.es.Some? then s.(world := s.world.Close(s.es.value)) else s
  }

  function Connect(s: State): State {
    if s.stopped then s else s.(world := s.world.Suspend())
  }

  function AfterAwait(s: State, hasToken: bool): State {
    if s.stopped then s
    else if !hasToken then SetTimeout(s)
    else s.(es := Some(s.world.next), world := s.world.Open())
  }

  function OnError(s: State): State {
    var s := CloseStream(s);
    if s.stopped then s else SetTimeout(ClearTimeout(s))
  }

  function Step(s: State, e: Event): State {
    match e
    case TokenSettled(call, hasToken) =>
      if call !in s.world.pending then s else AfterAwait(s.(world := s.world.Resume(call)), hasToken)
    case StreamError(stream) => if stream !in s.world.live then s else OnError(s)
    case TimerFires(timer) =>
      if timer !in s.world.armed then s else Connect(s.(world := s.world.Disarm(timer)))
    case Unmount => if s.stopped then s else CloseStream(ClearTimeout(s.(stopped := true)))
  }

  const MOUNTED := Connect(State(false, None, None, World({}, {}, {}, 0)))

  function Run(events: seq<Event>): State {
    if events == [] then MOUNTED else Step(Run(events[..|events| - 1]), events[|events| - 1])
  }

  class Effect {
    var stopped: bool
    var retry: Option<nat>
    var es: Option<nat>
    var world: World

    ghost function Now(): State
      reads this
    {
      State(stopped, retry, es, world)
    }

    constructor ()
      ensures Now() == MOUNTED
    {
      stopped, retry, es := false, None, None;
      world := World({}, {}, {}, 0);
      new;
      CallConnect();
    }

    method CallConnect()
      modifies this
      ensures Now() == Connect(old(Now()))
    {
      if stopped { return; }
      world := world.Suspend();
    }

    method ArmRetry()
      modifies this
      ensures Now() == SetTimeout(old(Now()))
    {
      retry := Some(world.next);
      world := world.Arm();
    }

    method OnTokenSettled(call: nat, hasToken: bool)
      requires call in world.pending
      modifies this
      ensures Now() == Step(old(Now()), TokenSettled(call, hasToken))
    {
      world := world.Resume(call);
      if stopped || !hasToken {
        if !stopped { ArmRetry(); }
        return;
      }
      es := Some(world.next);
      world := world.Open();
    }

    method OnStreamError(stream: nat)
      requires stream in world.live
      modifies this
      ensures Now() == Step(old(Now()), StreamError(stream))
    {
      if es.Some? { world := world.Close(es.value); }
      if stopped { return; }
      if retry.Some? { world := world.Disarm(retry.value); }
      ArmRetry();
    }

    method OnTimer(timer: nat)
      requires timer in world.armed
      modifies this
      ensures Now() == Step(old(Now()), TimerFires(timer))
    {
      world := world.Disarm(timer);
      CallConnect();
    }

    method OnUnmount()
      requires !stopped
      modifies this
      ensures Now() == Step(old(Now()), Unmount)
    {
      stopped := true;
      if retry.Some? { world := world.Disarm(retry.value); }
      if es.Some? { world := world.Close(es.value); }
    }
  }

  // The stale handle of a fired timer is harmless because handles are never reused, and
  // `es` always names the live stream, so the error handler closes the stream that failed.
  ghost predicate Inv(s: State) {
    && s.world.Fresh()
    && (s.stopped ==> s.world.live == {} && s.world.armed == {})
    && (!s.stopped ==> s.world.Activities() == 1)
    && (s.world.live != {} ==> s.es.Some? && s.world.live == {s.es.value})
    && (s.world.armed != {} ==> s.retry.Some? && s.world.armed == {s.retry.value})
    && (s.retry.Some? ==> s.retry.value < s.world.next)
    && (s.es.Some? ==> s.es.value < s.world.next)
  }

  lemma TokenSettledKeepsInv(s: State, call: nat, hasToken: bool)
    requires Inv(s)
    ensures Inv(Step(s, TokenSettled(call, hasToken)))
  {
    if call in s.world.pending { assert |s.world.pending - {call}| == |s.world.pending| - 1; }
  }

  lemma StreamErrorKeepsInv(s: State, stream: nat)
    requires Inv(s)
    ensures Inv(Step(s, StreamError(stream)))
  {
  }

  lemma TimerFiresKeepsInv(s: State, timer: nat)
    requires Inv(s)
    ensures Inv(Step(s, TimerFires(timer)))
  {
  }

  lemma UnmountKeepsInv(s: State)
    requires Inv(s)
    ensures Inv(Step(s, Unmount))
  {
  }

  lemma StepKeepsInv(s: State, e: Event)
    requires Inv(s)
    ensures Inv(Step(s, e))
  {
    hide Step, Inv;
    match e
    case TokenSettled(call, hasToken) => TokenSettledKeepsInv(s, call, hasToken);
    case StreamError(stream) => StreamErrorKeepsInv(s, stream);
    case TimerFires(timer) => TimerFiresKeepsInv(s, timer);
    case Unmount => UnmountKeepsInv(s);
  }

  lemma {:induction false} RunKeepsInv(events: seq<Event>)
    ensures Inv(Run(events))
  {
    if events != [] {
      RunKeepsInv(events[..|events| - 1]);
      StepKeepsInv(Run(events[..|events| - 1]), events[|events| - 1]);
    }
  }

  // Unmounting, and nothing else, stops the effect.
  lemma {:induction false} StoppedIffUnmounted(events: seq<Event>)
    ensures Run(events).stopped <==> Unmount in events
  {
    if events != [] {
      var init, last := events[..|events| - 1], events[|events| - 1];
      StoppedIffUnmounted(init);
      StoppedByUnmount(Run(init), last);
      assert events == init + [last];
    }
  }

  lemma StoppedByUnmount(s: State, e: Event)
    ensures Step(s, e).stopped <==> s.stopped || e == Unmount
  {
  }

  // After any events: exactly one of a pending token refresh, a live stream and an armed
  // timer while mounted; neither stream nor timer after unmount; and whenever a stream
  // can fail, the handle the error handler closes is that very stream.
  lemma OneActivity(events: seq<Event>)
    ensures var s := Run(events);
            && (Unmount !in events ==> s.world.Activities() == 1)
            && (Unmount in events ==> s.world.live == {} && s.world.armed == {})
            && (forall stream :: stream in s.world.live ==> s.es == Some(stream))
  {
    StoppedIffUnmounted(events);
    RunKeepsInv(events);
  }

  lemma NoActionAfterUnmount(events: seq<Event>, more: seq<Event>)
    requires Unmount in events
    ensures Run(events + more).world.live == {} && Run(events + more).world.armed == {}
  {
    OneActivity(events + more);
  }

  // What a mounted effect does next, after any events: a refresh that leaves a token opens
  // a stream, one that does not and a failing stream arm a timer, a timer starts a refresh,
  // and each replaces what was there. What is not pending, live or armed has no effect.
  predicate Follows(w: World, e: Event, t: World) {
    match e
    case TokenSettled(call, hasToken) =>
      if call !in w.pending then t == w else if hasToken then t.OneStream() else t.OneTimer()
    case StreamError(stream) => if stream !in w.live then t == w else t.OneTimer()
    case TimerFires(timer) => if timer !in w.armed then t == w else t.OneCall()
    case Unmount => t.live == {} && t.armed == {} && t.pending == w.pending
  }

  lemma NextActivity(events: seq<Event>, e: Event)
    requires Unmount !in events
    ensures Follows(Run(events).world, e, Run(events + [e]).world)
  {
    StoppedIffUnmounted(events);
    RunKeepsInv(events);
    assert (events + [e])[..|events|] == events;
    StepFollows(Run(events), e);
  }

  lemma TokenFollows(s: State, call: nat, hasToken: bool)
    requires Inv(s) && !s.stopped
    ensures Follows(s.world, TokenSettled(call, hasToken), Step(s, TokenSettled(call, hasToken)).world)
  {
    if call in s.world.pending { assert |s.world.pending - {call}| == |s.world.pending| - 1; }
  }

  lemma ErrorFollows(s: State, stream: nat)
    requires Inv(s) && !s.stopped
    ensures Follows(s.world, StreamError(stream), Step(s, StreamError(stream)).world)
  {
  }

  lemma TimerFollows(s: State, timer: nat)
    requires Inv(s) && !s.stopped
    ensures Follows(s.world, TimerFires(timer), Step(s, TimerFires(timer)).world)
  {
  }

  lemma UnmountFollows(s: State)
    requires Inv(s) && !s.stopped
    ensures Follows(s.world, Unmount, Step(s, Unmount).world)
  {
  }

  lemma StepFollows(s: State, e: Event)
    requires Inv(s) && !s.stopped
    ensures Follows(s.world, e, Step(s, e).world)
  {
    hide Step, Inv, Follows;
    match e
    case TokenSettled(call, hasToken) => TokenFollows(s, call, hasToken);
    case StreamError(stream) => ErrorFollows(s, stream);
    case TimerFires(timer) => TimerFollows(s, timer);
    case Unmount => UnmountFollows(s);
  }

  // A mounted effect can always get back to a live stream, however often token refreshes
  // and streams have failed before.
  lemma Recovers(events: seq<Event>) returns (more: seq<Event>)
    requires Unmount !in events
    ensures |more| <= 2
    ensures forall i :: 0 <= i < |more| ==> more[i].TimerFires? || (more[i].TokenSettled? && more[i].hasToken)
    ensures |Run(events + more).world.live| == 1
  {
    var w := Run(events).world;
    OneActivity(events);
    hide Run, Step;
    if w.live != {} {
      more := [];
      assert events + more == events;
      OneAtMost(w);
    } else if w.pending != {} {
      var call :| call in w.pending;
      more := [TokenSettled(call, true)];
      NextActivity(events, more[0]);
    } else {
      var timer :| timer in w.armed;
      var fired := events + [TimerFires(timer)];
      NextActivity(events, TimerFires(timer));
      var call :| call in Run(fired).world.pending;
      more := [TimerFires(timer), TokenSettled(call, true)];
      NextActivity(fired, more[1]);
      assert events + more == fired + [more[1]];
    }
  }

  lemma OneAtMost(w: World)
    requires w.Activities() == 1 && w.live != {}
    ensures |w.live| == 1
  {
    assert |w.live| != 0;
  }
}
