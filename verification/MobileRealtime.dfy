// The reconnect automaton of the mobile RealtimeProvider effect
// (mobile/src/api/RealtimeContext.js): `stopped`, `retry` and `xhr` are the effect's
// variables, `world` is what the environment holds on its behalf.
module MobileRealtime {
  import opened Text
  import opened Browser

  datatype State = State(stopped: bool, retry: Option<nat>, xhr: Option<nat>, world: World)

  // Everything that can call into a mounted effect. Done is an XMLHttpRequest reaching
  // ready state 4: readystatechange and, if the request failed, the error event run in
  // the same task. TokenRejected is a getAccessToken() promise that rejects.
  datatype Event =
    | TokenResolved(call: nat, hasToken: bool)
    | TokenRejected(call: nat)
    | Done(req: nat, failed: bool)
    | TimerFires(timer: nat)
    | Unmount

  // ---------- The transition function ----------

  function ScheduleReconnect(s: State): State {
    if s.stopped || s.retry.Some? then s
    else s.(retry := Some(s.world.next), world := s.world.Arm())
  }

  function Connect(s: State): State {
    if s.stopped then s else s.(world := s.world.Suspend())
  }

  // The rest of connect() after the await.
  function AfterAwait(s: State, hasToken: bool): State {
    if s.stopped then s
    else if !hasToken then ScheduleReconnect(s)
    else s.(xhr := Some(s.world.next), world := s.world.Open())
  }

  function OnDone(s: State, failed: bool): State {
    if failed then ScheduleReconnect(ScheduleReconnect(s)) else ScheduleReconnect(s)
  }

  // Cleanup: aborting an open request fires its readystatechange handler at once.
  function Cleanup(s: State): State {
    var s := s.(stopped := true);
    var s := if s.retry.Some? then s.(world := s.world.Disarm(s.retry.value)) else s;
    if s.xhr.Some? && s.xhr.value in s.world.live then
      ScheduleReconnect(s.(world := s.world.Close(s.xhr.value)))
    else s
  }

  // An event that the environment does not have pending cannot occur.
  function Step(s: State, e: Event): State {
    match e
    case TokenResolved(call, hasToken) =>
      if call !in s.world.pending then s else AfterAwait(s.(world := s.world.Resume(call)), hasToken)
    case TokenRejected(call) =>
      if call !in s.world.pending then s else s.(world := s.world.Resume(call))
    case Done(req, failed) =>
      if req !in s.world.live then s else OnDone(s.(world := s.world.Close(req)), failed)
    case TimerFires(timer) =>
      if timer !in s.world.armed then s
      else Connect(s.(world := s.world.Disarm(timer), retry := None))
    case Unmount => if s.stopped then s else Cleanup(s)
  }

  const MOUNTED := Connect(State(false, None, None, World({}, {}, {}, 0)))

  function Run(events: seq<Event>): State {
    if events == [] then MOUNTED else Step(Run(events[..|events| - 1]), events[|events| - 1])
  }

  // ---------- The effect as a mutable object ----------

  class Effect {
    var stopped: bool
    var retry: Option<nat>
    var xhr: Option<nat>
    var world: World

    ghost function Now(): State
      reads this
    {
      State(stopped, retry, xhr, world)
    }

    constructor ()
      ensures Now() == MOUNTED
    {
      stopped, retry, xhr := false, None, None;
      world := World({}, {}, {}, 0);
      new;
      CallConnect();
    }

    method CallScheduleReconnect()
      modifies this
      ensures Now() == ScheduleReconnect(old(Now()))
    {
      if stopped || retry.Some? { return; }
      retry := Some(world.next);
      world := world.Arm();
    }

    method CallConnect()
      modifies this
      ensures Now() == Connect(old(Now()))
    {
      if stopped { return; }
      world := world.Suspend();
    }

    method OnTokenResolved(call: nat, hasToken: bool)
      requires call in world.pending
      modifies this
      ensures Now() == Step(old(Now()), TokenResolved(call, hasToken))
    {
      world := world.Resume(call);
      if stopped { return; }
      if !hasToken {
        CallScheduleReconnect();
        return;
      }
      var req := world.next;
      world := world.Open();
      xhr := Some(req);
    }

    method OnRequestDone(req: nat, failed: bool)
      requires req in world.live
      modifies this
      ensures Now() == Step(old(Now()), Done(req, failed))
    {
      world := world.Close(req);
      CallScheduleReconnect();
      if failed { CallScheduleReconnect(); }
    }

    method OnTimer(timer: nat)
      requires timer in world.armed
      modifies this
      ensures Now() == Step(old(Now()), TimerFires(timer))
    {
      world := world.Disarm(timer);
      retry := None;
      CallConnect();
    }

    method OnUnmount()
      requires !stopped
      modifies this
      ensures Now() == Step(old(Now()), Unmount)
    {
      stopped := true;
      if retry.Some? { world := world.Disarm(retry.value); }
      if xhr.Some? && xhr.value in world.live {
        world := world.Close(xhr.value);
        CallScheduleReconnect();
      }
    }
  }

  // ---------- Invariant ----------

  ghost predicate Waiting(s: State) {
    |s.world.pending| == 1 && s.world.live == {} && s.world.armed == {} && s.retry == None
  }

  ghost predicate Streaming(s: State) {
    s.xhr.Some? && s.world.pending == {} && s.world.live == {s.xhr.value} && s.world.armed == {} && s.retry == None
  }

  ghost predicate BackingOff(s: State) {
    s.retry.Some? && s.world.pending == {} && s.world.live == {} && s.world.armed == {s.retry.value}
  }

  ghost predicate Stalled(s: State) {
    s.world.Activities() == 0 && s.retry == None
  }

  ghost predicate Inv(s: State) {
    && s.world.Fresh()
    && (if s.stopped then s.world.live == {} && s.world.armed == {} && |s.world.pending| <= 1
        else Waiting(s) || Streaming(s) || BackingOff(s) || Stalled(s))
  }

  // A token request of the mounted effect has been rejected.
  predicate Rejected(events: seq<Event>) {
    if events == [] then false
    else
      var init, last := events[..|events| - 1], events[|events| - 1];
      Rejected(init) || (last.TokenRejected? && last.call in Run(init).world.pending && !Run(init).stopped)
  }

  lemma TokenResolvedKeepsInv(s: State, call: nat, hasToken: bool)
    requires Inv(s)
    ensures Inv(Step(s, TokenResolved(call, hasToken)))
    ensures var t := Step(s, TokenResolved(call, hasToken));
            !s.stopped && !Stalled(s) && !t.stopped ==> !Stalled(t)
  {
    if call in s.world.pending { assert |s.world.pending - {call}| == |s.world.pending| - 1; }
  }

  lemma TokenRejectedKeepsInv(s: State, call: nat)
    requires Inv(s)
    ensures Inv(Step(s, TokenRejected(call)))
  {
    if call in s.world.pending { assert |s.world.pending - {call}| == |s.world.pending| - 1; }
  }

  lemma DoneKeepsInv(s: State, req: nat, failed: bool)
    requires Inv(s)
    ensures Inv(Step(s, Done(req, failed)))
    ensures !s.stopped && !Stalled(s) && !Step(s, Done(req, failed)).stopped ==> !Stalled(Step(s, Done(req, failed)))
  {
  }

  lemma TimerFiresKeepsInv(s: State, timer: nat)
    requires Inv(s)
    ensures Inv(Step(s, TimerFires(timer)))
    ensures !s.stopped && !Stalled(s) && !Step(s, TimerFires(timer)).stopped ==> !Stalled(Step(s, TimerFires(timer)))
  {
  }

  lemma UnmountKeepsInv(s: State)
    requires Inv(s)
    ensures Inv(Step(s, Unmount))
    ensures !s.stopped && !Stalled(s) && !Step(s, Unmount).stopped ==> !Stalled(Step(s, Unmount))
  {
  }

  lemma StepKeepsInv(s: State, e: Event)
    requires Inv(s)
    ensures Inv(Step(s, e))
    ensures !s.stopped && !Stalled(s) && !e.TokenRejected? && !Step(s, e).stopped ==> !Stalled(Step(s, e))
  {
    hide Step, Inv, Stalled;
    match e
    case TokenResolved(call, hasToken) => TokenResolvedKeepsInv(s, call, hasToken);
    case TokenRejected(call) => TokenRejectedKeepsInv(s, call);
    case Done(req, failed) => DoneKeepsInv(s, req, failed);
    case TimerFires(timer) => TimerFiresKeepsInv(s, timer);
    case Unmount => UnmountKeepsInv(s);
  }

  lemma StalledStays(s: State, e: Event)
    requires Inv(s) && Stalled(s) && !s.stopped && !Step(s, e).stopped
    ensures Stalled(Step(s, e))
  {
  }

  lemma RejectionStalls(s: State, call: nat)
    requires Inv(s) && !s.stopped && call in s.world.pending
    ensures Stalled(Step(s, TokenRejected(call)))
  {
    assert |s.world.pending - {call}| == |s.world.pending| - 1;
  }

  lemma OnlyRejectionStalls(s: State, call: nat)
    requires Inv(s) && !s.stopped && !Stalled(s) && call !in s.world.pending
    ensures !Stalled(Step(s, TokenRejected(call)))
  {
  }

  lemma StoppedStays(s: State, e: Event)
    requires s.stopped
    ensures Step(s, e).stopped
  {
  }

  lemma {:induction false} RunKeepsInv(events: seq<Event>)
    ensures Inv(Run(events))
    ensures !Run(events).stopped ==> (Stalled(Run(events)) <==> Rejected(events))
  {
    hide Step, Inv, Stalled;
    if events == [] {
      MountedIsWaiting();
    } else {
      var init, last := events[..|events| - 1], events[|events| - 1];
      var s := Run(init);
      RunKeepsInv(init);
      StepKeepsInv(s, last);
      if s.stopped {
        StoppedStays(s, last);
      } else if !Run(events).stopped {
        if Stalled(s) {
          StalledStays(s, last);
        } else if last.TokenRejected? {
          if last.call in s.world.pending { RejectionStalls(s, last.call); } else { OnlyRejectionStalls(s, last.call); }
        }
      }
    }
  }

  lemma MountedIsWaiting()
    ensures Inv(MOUNTED) && !Stalled(MOUNTED) && !MOUNTED.stopped
  {
  }

  // Unmounting, and nothing else, stops the effect.
  lemma {:induction false} StoppedIffUnmounted(events: seq<Event>)
    ensures Run(events).stopped <==> Unmount in events
  {
    if events != [] {
      var init, last := events[..|events| - 1], events[|events| - 1];
      StoppedIffUnmounted(init);
      StoppedByUnmount(Run(init), last);
      assert events == init + [last];
    }
  }

  lemma StoppedByUnmount(s: State, e: Event)
    ensures Step(s, e).stopped <==> s.stopped || e == Unmount
  {
  }

  // After any events whatsoever: while mounted there is at most one of a pending token
  // request, a live stream and an armed timer, and there is one unless, and only unless,
  // a token request was rejected; after unmount there is no stream and no timer.
  lemma OneActivity(events: seq<Event>)
    ensures var w := Run(events).world;
            && (Unmount !in events ==> w.Activities() == if Rejected(events) then 0 else 1)
            && (Unmount in events ==> w.live == {} && w.armed == {})
  {
    StoppedIffUnmounted(events);
    RunKeepsInv(events);
  }

  // Nothing that happens after unmount opens a stream or arms a timer: not the abort of
  // cleanup itself, not a token that resolves late.
  lemma NoActionAfterUnmount(events: seq<Event>, more: seq<Event>)
    requires Unmount in events
    ensures Run(events + more).world.live == {} && Run(events + more).world.armed == {}
  {
    OneActivity(events + more);
  }

  // What a mounted effect does next, after any events: a token opens a stream, no token and
  // the end of a stream arm a timer, a timer asks for a token, and each replaces what was
  // there; a rejection leaves nothing. What is not pending, live or armed has no effect.
  predicate Follows(w: World, e: Event, t: World) {
    match e
    case TokenResolved(call, hasToken) =>
      if call !in w.pending then t == w else if hasToken then t.OneStream() else t.OneTimer()
    case TokenRejected(call) => if call !in w.pending then t == w else t.Activities() == 0
    case Done(req, _) => if req !in w.live then t == w else t.OneTimer()
    case TimerFires(timer) => if timer !in w.armed then t == w else t.OneCall()
    case Unmount => t.live == {} && t.armed == {} && t.pending == w.pending
  }

  lemma NextActivity(events: seq<Event>, e: Event)
    requires Unmount !in events
    ensures Follows(Run(events).world, e, Run(events + [e]).world)
  {
    StoppedIffUnmounted(events);
    RunKeepsInv(events);
    assert (events + [e])[..|events|] == events;
    StepFollows(Run(events), e);
  }

  lemma TokenFollows(s: State, call: nat, hasToken: bool)
    requires Inv(s) && !s.stopped
    ensures Follows(s.world, TokenResolved(call, hasToken), Step(s, TokenResolved(call, hasToken)).world)
  {
    if call in s.world.pending { assert |s.world.pending - {call}| == |s.world.pending| - 1; }
  }

  lemma RejectionFollows(s: State, call: nat)
    requires Inv(s) && !s.stopped
    ensures Follows(s.world, TokenRejected(call), Step(s, TokenRejected(call)).world)
  {
    if call in s.world.pending { assert |s.world.pending - {call}| == |s.world.pending| - 1; }
  }

  lemma DoneFollows(s: State, req: nat, failed: bool)
    requires Inv(s) && !s.stopped
    ensures Follows(s.world, Done(req, failed), Step(s, Done(req, failed)).world)
  {
  }

  lemma TimerFollows(s: State, timer: nat)
    requires Inv(s) && !s.stopped
    ensures Follows(s.world, TimerFires(timer), Step(s, TimerFires(timer)).world)
  {
  }

  lemma UnmountFollows(s: State)
    requires Inv(s) && !s.stopped
    ensures Follows(s.world, Unmount, Step(s, Unmount).world)
  {
  }

  lemma StepFollows(s: State, e: Event)
    requires Inv(s) && !s.stopped
    ensures Follows(s.world, e, Step(s, e).world)
  {
    hide Step, Inv, Follows;
    match e
    case TokenResolved(call, hasToken) => TokenFollows(s, call, hasToken);
    case TokenRejected(call) => RejectionFollows(s, call);
    case Done(req, failed) => DoneFollows(s, req, failed);
    case TimerFires(timer) => TimerFollows(s, timer);
    case Unmount => UnmountFollows(s);
  }

  // Running both handlers of a failed request in one task matters: a further error event
  // arriving once the timer has fired would arm a second timer beside the pending token.
  lemma LateErrorEventForks(events: seq<Event>)
    requires Unmount !in events && Run(events).world.pending != {}
    ensures ScheduleReconnect(Run(events)).world.Activities() == 2
  {
    StoppedIffUnmounted(events);
    RunKeepsInv(events);
  }

  // Unless a token request was rejected, a mounted effect always gets back to a live
  // stream: the armed timer and a token are all it takes.
  lemma Recovers(events: seq<Event>) returns (more: seq<Event>)
    requires Unmount !in events && !Rejected(events)
    ensures |more| <= 2
    ensures forall i :: 0 <= i < |more| ==> more[i].TimerFires? || (more[i].TokenResolved? && more[i].hasToken)
    ensures |Run(events + more).world.live| == 1
  {
    var w := Run(events).world;
    OneActivity(events);
    hide Run, Step;
    if w.live != {} {
      more := [];
      assert events + more == events;
      OneAtMost(w);
    } else if w.pending != {} {
      var call :| call in w.pending;
      more := [TokenResolved(call, true)];
      NextActivity(events, more[0]);
    } else {
      var timer :| timer in w.armed;
      var fired := events + [TimerFires(timer)];
      NextActivity(events, TimerFires(timer));
      var call :| call in Run(fired).world.pending;
      more := [TimerFires(timer), TokenResolved(call, true)];
      NextActivity(fired, more[1]);
      assert events + more == fired + [more[1]];
    }
  }

  lemma OneAtMost(w: World)
    requires w.Activities() == 1 && w.live != {}
    ensures |w.live| == 1
  {
    assert |w.live| != 0;
  }
}
