/**
 What in a run is to blame: which of its events cost a permit for good, and which
 leave a child alive behind its permit; and how a call can come to its end.
 */
module IsolatedCauses {
  import opened Isolated
  import opened IsolatedSafety
  import opened IsolatedProgress
  import opened IsolatedHistory

  lemma {:induction false} CallsInRange(s: System, events: seq<Event>)
    requires Run(s, events).Some?
    ensures |Run(s, events).value.calls| == |s.calls|
    ensures forall e <- events :: e.Act? ==> e.call < |s.calls|
    decreases |events|
  {
    hide StepCall;
    if events != [] {
      CallsInRange(Step(s, events[0]).value, events[1..]);
      assert events == [events[0]] + events[1..];
    }
  }

  // ---- a permit lost for good ------------------------------------------------

  /** The calls whose start job was dropped from the executor's queue. */
  function Drops(calls: seq<Call>): nat {
    if calls == [] then 0 else (if calls[0].starter.Dropped? then 1 else 0) + Drops(calls[1..])
  }

  lemma {:induction false} HeldByDropped(calls: seq<Call>)
    requires forall i :: 0 <= i < |calls| ==> (Holds(calls[i]) <==> calls[i].starter.Dropped?)
    ensures Held(calls) == Drops(calls)
  {
    if calls != [] {
      HeldByDropped(calls[1..]);
    }
  }

  lemma {:induction false} NoDrops(calls: seq<Call>)
    ensures Drops(calls) == 0 <==> forall i :: 0 <= i < |calls| ==> !calls[i].starter.Dropped?
  {
    if calls != [] {
      NoDrops(calls[1..]);
      assert forall i | 0 < i < |calls| :: calls[i] == calls[1..][i - 1];
    }
  }

  lemma DroppedExactly(n: nat, events: seq<Event>, s: System, i: nat)
    requires Reaches(NO_HYPOTHESES, n, events, s) && i < n
    ensures i < |s.calls|
    ensures s.calls[i].starter.Dropped? <==> Act(i, CancelStarting(true)) in events
  {
    CallTells(n, events, s, i);
  }

  /**
   Exactly-once release, exactly. With no hypothesis, an open pool in which nothing
   is left to do is short by the number of calls whose start job was dropped; every
   other call that got a permit gave it back exactly once. So both permits are back
   if and only if the run cancelled no start job in the executor's queue.
   */
  lemma DrainedExactly(n: nat, events: seq<Event>, s: System)
    requires Reaches(NO_HYPOTHESES, n, events, s) && !s.closed && Quiet(s)
    ensures s.posted == 0 && s.free + Drops(s.calls) == MAX_CONCURRENT
    ensures forall c <- s.calls :: c.permit ==> |c.releases| == if c.starter.Dropped? then 0 else 1
    ensures s.free == MAX_CONCURRENT <==> forall e <- events :: !(e.Act? && e.action == CancelStarting(true))
  {
    hide Shape, StepCall, NextAction, Finished;
    ReachableInv(NO_HYPOTHESES, n, events, s);
    forall i | 0 <= i < |s.calls|
      ensures Holds(s.calls[i]) <==> s.calls[i].starter.Dropped?
      ensures s.calls[i].permit ==> |s.calls[i].releases| == if s.calls[i].starter.Dropped? then 0 else 1
    {
      InvShape(s, i);
      QuietCall(s, i);
    }
    HeldByDropped(s.calls);
    NoDrops(s.calls);
    assert Step(s, Deliver).None?;
    NoDropEvents(n, events, s);
  }

  lemma NoDropEvents(n: nat, events: seq<Event>, s: System)
    requires Reaches(NO_HYPOTHESES, n, events, s)
    ensures (forall i :: 0 <= i < |s.calls| ==> !s.calls[i].starter.Dropped?) <==>
            forall e <- events :: !(e.Act? && e.action == CancelStarting(true))
  {
    hide Run;
    CallsInRange(Init(n), events);
    forall i | 0 <= i < n
      ensures s.calls[i].starter.Dropped? <==> Act(i, CancelStarting(true)) in events
    {
      DroppedExactly(n, events, s, i);
    }
    assert |Init(n).calls| == n;
    if e :| e in events && e.Act? && e.action == CancelStarting(true) {
      assert e == Act(e.call, CancelStarting(true)) && s.calls[e.call].starter.Dropped?;
    }
  }

  // ---- a child that outlives its permit ----------------------------------------

  /**
   The run cancels the await of call `i`'s final stop, and the owner gives the
   permit back, while that stop has not run.
   */
  predicate Abandons(events: seq<Event>, i: nat) {
    && (Act(i, CancelFinalStop(true)) in events || Act(i, CancelFinalStop(false)) in events)
    && Act(i, OwnerReleases) in events
    && !(Act(i, StopperStops(true)) in events || Act(i, StopperStops(false)) in events)
  }

  /** A child whose call is over and has given the permit back, with its stop still to come or withdrawn. */
  predicate Orphaned(c: Call) {
    c.alive && c.owner.Done? && !c.handle.transferred && (c.stopper.Busy? || c.stopper.Withdrawn?)
  }

  lemma UncoveredShape(c: Call, log: Log)
    requires Shape(c) && Reaped(c) && Remembers(c, log)
    ensures c.alive && !Holds(c) <==> Orphaned(c)
    ensures Orphaned(c) <==> log.cut && log.left && !log.stopped
  {
  }

  /**
   Reap before release, exactly. When stops that run reap, a child outlives its
   permit if and only if it is orphaned, and the run did that to call `i` if and
   only if it cancelled the final stop's await and let the owner go before that
   stop ran.
   */
  lemma ReapedExactly(n: nat, events: seq<Event>, s: System, i: nat, h: Hypotheses)
    requires h.stopsReap && Reaches(h, n, events, s) && i < n
    ensures i < |s.calls|
    ensures s.calls[i].alive && !Holds(s.calls[i]) <==> Orphaned(s.calls[i])
    ensures s.calls[i].alive && !Holds(s.calls[i]) <==> Abandons(events, i)
  {
    hide Shape, Remembers, Retraces, Run, Reaped;
    ReachableInv(h, n, events, s);
    assert Reaches(NO_HYPOTHESES, n, events, s);
    CallTells(n, events, s, i);
    assert s.calls[i] in s.calls;
    UncoveredShape(s.calls[i], LogOf(Taken(events, i)));
  }

  /**
   A call is only ever abandoned that way after a normal end, or when a cancelled
   owner could not start its cleanup thread: a cancelled owner whose thread starts
   has nothing left to await.
   */
  lemma AbandonedOnlyAfter(n: nat, events: seq<Event>, s: System, i: nat)
    requires Reaches(NO_HYPOTHESES, n, events, s) && i < n && Abandons(events, i)
    ensures Act(i, WorkEnds(false)) in events || Act(i, HandFails) in events
  {
    CallTells(n, events, s, i);
  }

  // ---- how a call ends -----------------------------------------------------------

  predicate StopRan(events: seq<Event>, i: nat) {
    Act(i, StopperStops(true)) in events || Act(i, StopperStops(false)) in events
  }

  /**
   How a finished call came to leave. Having served and ended normally, or been
   unable to start its cleanup thread, only after its stop ran or the await of it
   was cancelled. Cancelled while serving, only by starting a cleanup thread or
   failing to. After a start it saw fail, only after that stop ran or was cancelled.
   */
  lemma HowCallsEnd(n: nat, events: seq<Event>, s: System, i: nat)
    requires Reaches(NO_HYPOTHESES, n, events, s) && i < n && i < |s.calls| && s.calls[i].owner.Done?
    ensures Act(i, WorkEnds(false)) in events || Act(i, HandFails) in events ==>
      StopRan(events, i) || Act(i, CancelFinalStop(true)) in events || Act(i, CancelFinalStop(false)) in events
    ensures Act(i, WorkEnds(true)) in events ==> Act(i, HandStarts) in events || Act(i, HandFails) in events
    ensures Act(i, SeesFailure(true)) in events ==>
      StopRan(events, i) || Act(i, CancelFailedStop(true)) in events || Act(i, CancelFailedStop(false)) in events
  {
    CallTells(n, events, s, i);
    hide Shape, Remembers;
  }

  /**
   The environment is free: at every await of the owner a cancellation can arrive,
   every thread and process may fail to start, and pipes may fail to open.
   */
  lemma AnythingMayFail(c: Call)
    ensures c.owner.Waiting? ==> StepCall(c, CancelWaiting).Some?
    ensures c.owner.Granted? ==> StepCall(c, CancelGranted).Some? && StepCall(c, CreateFails).Some?
    ensures c.owner.Starting? ==>
      StepCall(c, CancelStarting(false)).Some? && (c.starter.Queued? ==> StepCall(c, CancelStarting(true)).Some?)
    ensures c.owner.Starting? && c.starter.Raised? ==> forall caught :: StepCall(c, SeesFailure(caught)).Some?
    ensures c.owner.Deferring? ==> StepCall(c, DeferFails).Some?
    ensures c.owner.StoppingFailed? ==> StepCall(c, CancelFailedStop(false)).Some?
    ensures c.owner.Working? ==> StepCall(c, WorkEnds(true)).Some?
    ensures c.owner.Handing? ==> StepCall(c, HandFails).Some?
    ensures c.owner.StoppingFinal? ==> StepCall(c, CancelFinalStop(false)).Some?
    ensures c.stopper.Busy? && c.owner.StoppingFailed? ==> StepCall(c, CancelFailedStop(true)).Some?
    ensures c.stopper.Busy? && c.owner.StoppingFinal? ==> StepCall(c, CancelFinalStop(true)).Some?
    ensures c.starter.Launching? ==>
      forall leaves :: StepCall(c, LaunchFails(leaves)).Some? && StepCall(c, LaunchFails(leaves)).value.0.alive == leaves
  {
  }

  /** Whoever runs a stop, the child is gone after it exactly when it was reaped, or had been gone before. */
  lemma StopsMayNotReap(c: Call, reaps: bool)
    ensures forall a | a in {InlineStops(reaps), FailureStops(reaps), StarterStops(reaps), CleanerStops(reaps), StopperStops(reaps)} ::
      StepCall(c, a).Some? ==> StepCall(c, a).value.0.alive == (c.alive && !reaps)
  {
  }

  /** Nothing reaches a closed loop: no permit returns to the semaphore and no callback is queued. */
  lemma ClosedLoopIsDead(s: System, e: Event)
    requires s.closed && Step(s, e).Some?
    ensures var t := Step(s, e).value; t.closed && t.free == s.free && t.posted == s.posted
  {
  }
}
