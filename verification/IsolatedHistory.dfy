/** What a call's state tells about the actions it has taken: a history, kept as an invariant. */
module IsolatedHistory {
  import opened Isolated
  import opened IsolatedSafety

  /** Which of the telling actions a call has taken. */
  datatype Log = Log(
    dropped: bool, failed: bool, plain: bool, abrupt: bool, handed: bool,
    handFailed: bool, cutFailed: bool, cut: bool, stopped: bool, left: bool)

  function LogOf(taken: set<Action>): Log {
    Log(CancelStarting(true) in taken, SeesFailure(true) in taken, WorkEnds(false) in taken, WorkEnds(true) in taken,
        HandStarts in taken, HandFails in taken,
        CancelFailedStop(true) in taken || CancelFailedStop(false) in taken,
        CancelFinalStop(true) in taken || CancelFinalStop(false) in taken,
        StopperStops(true) in taken || StopperStops(false) in taken, OwnerReleases in taken)
  }

  function Noted(log: Log, a: Action): Log {
    Log(log.dropped || (a.CancelStarting? && a.dropsJob), log.failed || (a.SeesFailure? && a.caught),
        log.plain || (a.WorkEnds? && !a.cancelling), log.abrupt || (a.WorkEnds? && a.cancelling),
        log.handed || a.HandStarts?, log.handFailed || a.HandFails?, log.cutFailed || a.CancelFailedStop?,
        log.cut || a.CancelFinalStop?, log.stopped || a.StopperStops?, log.left || a.OwnerReleases?)
  }

  lemma LogGrows(taken: set<Action>, a: Action)
    ensures LogOf(taken + {a}) == Noted(LogOf(taken), a)
  {
  }

  /** The owner is past the await of its final stop and still has the slot to give back, or gave it back. */
  predicate PastFinalStop(c: Call) {
    && (c.owner.Leaving? || c.owner.Done?)
    && !c.handle.transferred && !c.flags.cancelled && c.cleaner.NoThread? && c.starter == Returned(true)
  }

  /** A call's state shows which of those actions it has taken. */
  predicate Remembers(c: Call, log: Log) {
    && (log.dropped <==> c.starter.Dropped?)
    && (log.stopped <==> c.stopper.Over?)
    && (log.left ==> c.owner.Done?)
    && (c.owner.Done? && !c.starter.NotSubmitted? ==> log.left)
    && (log.cut ==> PastFinalStop(c) && !c.stopper.Idle?)
    && (PastFinalStop(c) && (c.stopper.Busy? || c.stopper.Withdrawn?) ==> log.cut)
    && (c.starter.SuccessLocking? ==> c.alive)
    && (c.starter == Returned(true) && c.cleaner.NoThread? && !c.flags.cancelled && !c.stopper.Over? ==> c.alive)
  }

  predicate Leaves(c: Call) {
    c.owner.Leaving? || c.owner.Done?
  }

  /** ... and which way the owner went once the child had started or failed to. */
  predicate Retraces(c: Call, log: Log) {
    && (log.plain ==> c.owner.StoppingFinal? || Leaves(c))
    && (log.abrupt ==> c.owner.Closing? || c.owner.Handing? || c.owner.TakingBack? || c.owner.StoppingFinal? || Leaves(c))
    && (log.abrupt && !c.owner.Closing? && !c.owner.Handing? ==> log.handed || log.handFailed)
    && (log.handFailed ==> c.owner.TakingBack? || c.owner.StoppingFinal? || Leaves(c))
    && (c.owner.TakingBack? ==> log.handFailed)
    && (c.owner.StoppingFinal? || log.cut ==> log.plain || log.handFailed)
    && ((log.plain || log.handFailed) && Leaves(c) ==> log.stopped || log.cut)
    && (log.failed ==> c.owner.StoppingFailed? || (Leaves(c) && (log.stopped || log.cutFailed)))
  }

  lemma AcquiringNotes(c: Call, a: Action, log: Log)
    requires Shape(c) && Remembers(c, log) && PhaseOf(a) == Acquiring && StepAcquiring(c, a).Some?
    ensures Remembers(StepAcquiring(c, a).value.0, Noted(log, a))
  {}

  lemma AcquiringRetraced(c: Call, a: Action, log: Log)
    requires Retraces(c, log) && (c.stopper.Over? ==> log.stopped)
    requires PhaseOf(a) == Acquiring && StepAcquiring(c, a).Some?
    ensures Retraces(StepAcquiring(c, a).value.0, Noted(log, a))
  {}

  lemma AwaitingStartNotes(c: Call, a: Action, log: Log)
    requires Shape(c) && Remembers(c, log) && PhaseOf(a) == AwaitingStart && StepAwaitingStart(c, a).Some?
    ensures Remembers(StepAwaitingStart(c, a).value.0, Noted(log, a))
  {}

  lemma AwaitingStartRetraced(c: Call, a: Action, log: Log)
    requires Retraces(c, log) && (c.stopper.Over? ==> log.stopped)
    requires PhaseOf(a) == AwaitingStart && StepAwaitingStart(c, a).Some?
    ensures Retraces(StepAwaitingStart(c, a).value.0, Noted(log, a))
  {}

  lemma CancelledNotes(c: Call, a: Action, log: Log)
    requires Shape(c) && Remembers(c, log) && PhaseOf(a) == Cancelled && StepCancelled(c, a).Some?
    ensures Remembers(StepCancelled(c, a).value.0, Noted(log, a))
  {}

  lemma CancelledRetraced(c: Call, a: Action, log: Log)
    requires Retraces(c, log) && (c.stopper.Over? ==> log.stopped)
    requires PhaseOf(a) == Cancelled && StepCancelled(c, a).Some?
    ensures Retraces(StepCancelled(c, a).value.0, Noted(log, a))
  {}

  lemma UnwindingNotes(c: Call, a: Action, log: Log)
    requires Shape(c) && Remembers(c, log) && PhaseOf(a) == Unwinding && StepUnwinding(c, a).Some?
    ensures Remembers(StepUnwinding(c, a).value.0, Noted(log, a))
  {}

  lemma UnwindingRetraced(c: Call, a: Action, log: Log)
    requires Retraces(c, log) && (c.stopper.Over? ==> log.stopped)
    requires PhaseOf(a) == Unwinding && StepUnwinding(c, a).Some?
    ensures Retraces(StepUnwinding(c, a).value.0, Noted(log, a))
  {}

  lemma ServingNotes(c: Call, a: Action, log: Log)
    requires Shape(c) && Remembers(c, log) && PhaseOf(a) == Serving && StepServing(c, a).Some?
    ensures Remembers(StepServing(c, a).value.0, Noted(log, a))
  {}

  lemma ServingRetraced(c: Call, a: Action, log: Log)
    requires Retraces(c, log) && (c.stopper.Over? ==> log.stopped)
    requires PhaseOf(a) == Serving && StepServing(c, a).Some?
    ensures Retraces(StepServing(c, a).value.0, Noted(log, a))
  {}

  lemma HandoverNotes(c: Call, a: Action, log: Log)
    requires Shape(c) && Remembers(c, log) && PhaseOf(a) == Handover && StepHandover(c, a).Some?
    ensures Remembers(StepHandover(c, a).value.0, Noted(log, a))
  {}

  lemma HandoverRetraced(c: Call, a: Action, log: Log)
    requires Retraces(c, log) && (c.stopper.Over? ==> log.stopped)
    requires PhaseOf(a) == Handover && StepHandover(c, a).Some?
    ensures Retraces(StepHandover(c, a).value.0, Noted(log, a))
  {}

  lemma FinishingNotes(c: Call, a: Action, log: Log)
    requires Shape(c) && Remembers(c, log) && PhaseOf(a) == Finishing && StepFinishing(c, a).Some?
    ensures Remembers(StepFinishing(c, a).value.0, Noted(log, a))
  {}

  lemma FinishingRetraced(c: Call, a: Action, log: Log)
    requires Retraces(c, log) && (c.stopper.Over? ==> log.stopped)
    requires PhaseOf(a) == Finishing && StepFinishing(c, a).Some?
    ensures Retraces(StepFinishing(c, a).value.0, Noted(log, a))
  {}

  lemma StartFailureNotes(c: Call, a: Action, log: Log)
    requires Shape(c) && Remembers(c, log) && PhaseOf(a) == StartFailure && StepStartFailure(c, a).Some?
    ensures Remembers(StepStartFailure(c, a).value.0, Noted(log, a))
  {}

  lemma StartFailureRetraced(c: Call, a: Action, log: Log)
    requires Retraces(c, log) && (c.stopper.Over? ==> log.stopped)
    requires PhaseOf(a) == StartFailure && StepStartFailure(c, a).Some?
    ensures Retraces(StepStartFailure(c, a).value.0, Noted(log, a))
  {}

  lemma StartSuccessNotes(c: Call, a: Action, log: Log)
    requires Shape(c) && Remembers(c, log) && PhaseOf(a) == StartSuccess && StepStartSuccess(c, a).Some?
    ensures Remembers(StepStartSuccess(c, a).value.0, Noted(log, a))
  {}

  lemma StartSuccessRetraced(c: Call, a: Action, log: Log)
    requires Retraces(c, log) && (c.stopper.Over? ==> log.stopped)
    requires PhaseOf(a) == StartSuccess && StepStartSuccess(c, a).Some?
    ensures Retraces(StepStartSuccess(c, a).value.0, Noted(log, a))
  {}

  lemma CleanupNotes(c: Call, a: Action, log: Log)
    requires Shape(c) && Remembers(c, log) && PhaseOf(a) == Cleanup && StepCleanup(c, a).Some?
    ensures Remembers(StepCleanup(c, a).value.0, Noted(log, a))
  {}

  lemma CleanupRetraced(c: Call, a: Action, log: Log)
    requires Retraces(c, log) && (c.stopper.Over? ==> log.stopped)
    requires PhaseOf(a) == Cleanup && StepCleanup(c, a).Some?
    ensures Retraces(StepCleanup(c, a).value.0, Noted(log, a))
  {}

  ghost predicate Knows(c: Call, taken: set<Action>) {
    Remembers(c, LogOf(taken)) && Retraces(c, LogOf(taken))
  }

  lemma CallNotes(c: Call, a: Action, taken: set<Action>)
    requires Shape(c) && Knows(c, taken) && StepCall(c, a).Some?
    ensures Knows(StepCall(c, a).value.0, taken + {a})
  {
    LogGrows(taken, a);
    var log := LogOf(taken);
    assert c.stopper.Over? ==> log.stopped;
    hide Shape, Remembers, Retraces, Noted, LogOf;
    match PhaseOf(a)
    case Acquiring => AcquiringNotes(c, a, log); AcquiringRetraced(c, a, log);
    case AwaitingStart => AwaitingStartNotes(c, a, log); AwaitingStartRetraced(c, a, log);
    case Cancelled => CancelledNotes(c, a, log); CancelledRetraced(c, a, log);
    case Unwinding => UnwindingNotes(c, a, log); UnwindingRetraced(c, a, log);
    case Serving => ServingNotes(c, a, log); ServingRetraced(c, a, log);
    case Handover => HandoverNotes(c, a, log); HandoverRetraced(c, a, log);
    case Finishing => FinishingNotes(c, a, log); FinishingRetraced(c, a, log);
    case StartFailure => StartFailureNotes(c, a, log); StartFailureRetraced(c, a, log);
    case StartSuccess => StartSuccessNotes(c, a, log); StartSuccessRetraced(c, a, log);
    case Cleanup => CleanupNotes(c, a, log); CleanupRetraced(c, a, log);
  }

  /** The actions call `i` takes in a run. */
  function Taken(events: seq<Event>, i: nat): set<Action> {
    set e | e in events && e.Act? && e.call == i :: e.action
  }

  lemma {:induction false} RunKnows(s: System, events: seq<Event>, i: nat, taken: set<Action>)
    requires Inv(NO_HYPOTHESES, s) && Run(s, events).Some? && i < |s.calls| && Knows(s.calls[i], taken)
    ensures var t := Run(s, events).value;
      i < |t.calls| && Knows(t.calls[i], taken + Taken(events, i))
    decreases |events|
  {
    hide StepCall, Knows, CallInv;
    if events == [] {
      assert taken + Taken(events, i) == taken;
    } else {
      var e := events[0];
      StepKeeps(NO_HYPOTHESES, s, e);
      var next := Step(s, e).value;
      TakenCons(events, i);
      if e.Act? && e.call == i {
        InvShape(s, i);
        CallNotes(s.calls[i], e.action, taken);
        RunKnows(next, events[1..], i, taken + {e.action});
        assert taken + {e.action} + Taken(events[1..], i) == taken + Taken(events, i);
      } else {
        RunKnows(next, events[1..], i, taken);
        assert taken + Taken(events[1..], i) == taken + Taken(events, i);
      }
    }
  }

  lemma TakenCons(events: seq<Event>, i: nat)
    requires events != []
    ensures var e := events[0];
      Taken(events, i) == (if e.Act? && e.call == i then {e.action} else {}) + Taken(events[1..], i)
  {
    assert events == [events[0]] + events[1..];
  }

  lemma InvShape(s: System, i: nat)
    requires Inv(NO_HYPOTHESES, s) && i < |s.calls|
    ensures Shape(s.calls[i])
  {
    hide Shape;
    assert s.calls[i] in s.calls;
  }

  /** What the events of a reachable run say about one call. */
  lemma CallTells(n: nat, events: seq<Event>, s: System, i: nat)
    requires Reaches(NO_HYPOTHESES, n, events, s) && i < n
    ensures i < |s.calls| && Shape(s.calls[i])
    ensures var log := LogOf(Taken(events, i)); Remembers(s.calls[i], log) && Retraces(s.calls[i], log)
    ensures forall a :: a in Taken(events, i) <==> Act(i, a) in events
  {
    NothingHeld(Init(n).calls);
    assert Knows(Init(n).calls[i], {});
    RunKnows(Init(n), events, i, {});
    assert {} + Taken(events, i) == Taken(events, i);
    ReachableInv(NO_HYPOTHESES, n, events, s);
    InvShape(s, i);
    hide Shape, Remembers, Retraces, Run, Inv;
    forall a
      ensures a in Taken(events, i) <==> Act(i, a) in events
    {
      if Act(i, a) in events {
        var e := Act(i, a);
        assert e in events && e.Act? && e.call == i && e.action == a;
      }
    }
  }
}
