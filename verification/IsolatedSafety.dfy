/**
 What every interleaving of isolated calls keeps: permits are conserved, a
 cleanup is claimed once, and a child is reaped before its permit returns.
 */
module IsolatedSafety {
  import opened Basics
  import opened Slots
  import opened Isolated

  // ---- the inductive invariant ---------------------------------------------

  predicate FlagsFit(c: Call) {
    && (c.flags.started <==> c.starter.Stopping? || c.starter.StopReleasing? || c.starter.Returned?)
    && (c.flags.finished <==> c.flags.started || c.starter.FailureReleasing? || c.starter.Raised?)
    && (c.flags.claimed ==> c.flags.cancelled)
    && (!c.stopper.Idle? ==>
          && !c.flags.cancelled
          && (c.starter.Raised? || c.starter == Returned(true))
          && (c.owner.StoppingFailed? || c.owner.StoppingFinal? || c.owner.Leaving? || c.owner.Done?))
  }

  predicate Untouched(c: Call) {
    c == NEW_CALL.(owner := c.owner, permit := c.permit)
  }

  predicate StarterClaimed(c: Call) {
    c.starter.FailureReleasing? || c.starter.Stopping? || c.starter.StopReleasing? || c.starter == Returned(false)
  }

  /** The start thread has not yet looked at the cancellation. */
  predicate StarterUndecided(c: Call) {
    c.starter.Queued? || c.starter.Launching? || c.starter.Failing? || c.starter.FailureLocking? || c.starter.SuccessLocking?
  }

  /** Nobody but the owner can release from here on. */
  predicate OwnerAlone(c: Call) {
    && c.cleaner.NoThread?
    && (c.starter.NotSubmitted? || c.starter.Raised? || c.starter == Returned(true))
  }

  /** A transferred slot at the end of the owner's code has exactly one taker. */
  predicate Delegated(c: Call) {
    if !c.cleaner.NoThread? then
      && c.starter == Returned(true)
      && c.handle.released == c.cleaner.Gone?
      && c.releases == (if c.cleaner.Gone? then [CleanupThread] else [])
    else
      && c.flags.cancelled
      && if c.flags.claimed then
           && (StarterClaimed(c) || c.starter.Raised?)
           && c.handle.released == (c.starter.Raised? || c.starter == Returned(false))
           && (c.handle.released ==> c.releases == [StartThread] || c.releases == [OwnerTask])
         else
           && (StarterUndecided(c) || c.starter.Dropped?)
           && !c.handle.released
  }

  predicate Shape(c: Call) {
    && FlagsFit(c)
    && |c.releases| == (if c.handle.released then 1 else 0)
    && match c.owner
       case Waiting => Untouched(c) && !c.permit
       case Granted => Untouched(c) && c.permit
       case Starting =>
         && c.permit && c.handle == NEW_HANDLE && c.cleaner.NoThread? && !c.flags.cancelled
         && (StarterUndecided(c) || c.starter.Raised? || c.starter == Returned(true))
       case Transferring =>
         && c.permit && c.handle == NEW_HANDLE && c.cleaner.NoThread? && !c.flags.cancelled
         && (StarterUndecided(c) || c.starter.Dropped? || c.starter.Raised? || c.starter == Returned(true))
       case Publishing =>
         && c.permit && c.handle == Handle(false, true) && c.cleaner.NoThread? && !c.flags.cancelled
         && (StarterUndecided(c) || c.starter.Dropped? || c.starter.Raised? || c.starter == Returned(true))
       case Deferring | Reclaiming =>
         c.permit && c.handle == Handle(false, true) && c.cleaner.NoThread? && c.flags.claimed && c.starter == Returned(true)
       case StoppingInline =>
         c.permit && c.handle == NEW_HANDLE && OwnerAlone(c) && c.flags.claimed && c.starter == Returned(true)
       case ReturningSlot =>
         c.permit && c.handle == Handle(false, true) && c.cleaner.NoThread? && c.flags.claimed && c.starter.Raised?
       case StoppingFailed =>
         && c.permit && c.handle == NEW_HANDLE && OwnerAlone(c) && !c.flags.cancelled && c.starter.Raised?
         && (c.stopper.Busy? || c.stopper.Over?)
       case Working | Closing =>
         c.permit && c.handle == NEW_HANDLE && OwnerAlone(c) && !c.flags.cancelled && c.starter == Returned(true)
       case Handing | TakingBack =>
         c.permit && c.handle == Handle(false, true) && OwnerAlone(c) && !c.flags.cancelled && c.starter == Returned(true)
       case StoppingFinal =>
         && c.permit && c.handle == NEW_HANDLE && OwnerAlone(c) && !c.flags.cancelled && c.starter == Returned(true)
         && (c.stopper.Busy? || c.stopper.Over?)
       case Leaving =>
         c.permit && if c.handle.transferred then Delegated(c) else OwnerAlone(c) && !c.handle.released
       case Done =>
         if !c.permit then Untouched(c)
         else if c.handle.transferred then Delegated(c)
         else OwnerAlone(c) && c.handle.released && c.releases == [OwnerTask]
  }

  /** Only an abandoned final stop can still have a child to reap when the permit is given back. */
  predicate Reaped(c: Call) {
    c.alive ==>
      && (c.starter.Failing? || c.starter.SuccessLocking? || c.starter.Stopping? || c.starter == Returned(true))
      && (c.cleaner.NoThread? || c.cleaner.Reaping?)
      && !c.stopper.Over?
      && (c.handle.released ==> c.owner.Done? && !c.handle.transferred)
      && (c.handle.released || (c.owner.Leaving? && !c.handle.transferred) ==> c.starter == Returned(true) && !c.stopper.Idle?)
  }

  /** No party that is about to give the permit back still has a child to reap. */
  predicate Covered(c: Call) {
    c.alive ==> !c.handle.released && (c.owner.Leaving? ==> c.handle.transferred)
  }

  predicate Holds(c: Call) {
    c.permit && !c.handle.released
  }

  /** Permits out with calls that have not given them back. */
  function Held(calls: seq<Call>): nat {
    if calls == [] then 0 else (if Holds(calls[0]) then 1 else 0) + Held(calls[1..])
  }

  function Live(calls: seq<Call>): nat {
    if calls == [] then 0 else (if calls[0].alive then 1 else 0) + Live(calls[1..])
  }

  predicate CallInv(h: Hypotheses, c: Call) {
    Shape(c) && (h.jobsRun ==> !c.starter.Dropped?) && (h.stopsReap ==> Reaped(c)) && (h.stopsReap && h.finalAwaited ==> Covered(c))
  }

  ghost predicate Inv(h: Hypotheses, s: System) {
    && s.free + s.posted + s.lost + Held(s.calls) == MAX_CONCURRENT
    && (s.lost > 0 ==> s.closed)
    && forall c <- s.calls :: CallInv(h, c)
  }

  predicate EffectFits(c: Call, d: Call, e: Effect) {
    match e
    case Nothing => Holds(d) == Holds(c)
    case TakesPermit => !Holds(c) && Holds(d)
    case GivesPermit => Holds(c) && !Holds(d)
    case PostsPermit => Holds(c) && !Holds(d)
  }

  lemma AcquiringKeeps(h: Hypotheses, c: Call, a: Action)
    requires CallInv(h, c) && PhaseOf(a) == Acquiring && Allowed(h, Act(0, a)) && StepAcquiring(c, a).Some?
    ensures var (d, e) := StepAcquiring(c, a).value; CallInv(h, d) && EffectFits(c, d, e)
  {}

  lemma StartSeenKeeps(h: Hypotheses, c: Call, a: Action)
    requires a.SeesStarted? || a.SeesFailure?
    requires CallInv(h, c) && Allowed(h, Act(0, a)) && StepAwaitingStart(c, a).Some?
    ensures var (d, e) := StepAwaitingStart(c, a).value; CallInv(h, d) && EffectFits(c, d, e)
  {}

  lemma StartCancelledKeeps(h: Hypotheses, c: Call, a: Action)
    requires a.CancelStarting?
    requires CallInv(h, c) && Allowed(h, Act(0, a)) && StepAwaitingStart(c, a).Some?
    ensures var (d, e) := StepAwaitingStart(c, a).value; CallInv(h, d) && EffectFits(c, d, e)
  {}

  lemma FailedStopKeeps(h: Hypotheses, c: Call, a: Action)
    requires a.FailedStopDone? || a.CancelFailedStop?
    requires CallInv(h, c) && Allowed(h, Act(0, a)) && StepAwaitingStart(c, a).Some?
    ensures var (d, e) := StepAwaitingStart(c, a).value; CallInv(h, d) && EffectFits(c, d, e)
  {}

  lemma AwaitingStartKeeps(h: Hypotheses, c: Call, a: Action)
    requires CallInv(h, c) && PhaseOf(a) == AwaitingStart && Allowed(h, Act(0, a)) && StepAwaitingStart(c, a).Some?
    ensures var (d, e) := StepAwaitingStart(c, a).value; CallInv(h, d) && EffectFits(c, d, e)
  {
    hide CallInv, StepAwaitingStart, EffectFits, Allowed;
    match a
    case SeesStarted => StartSeenKeeps(h, c, a);
    case SeesFailure(_) => StartSeenKeeps(h, c, a);
    case CancelStarting(_) => StartCancelledKeeps(h, c, a);
    case FailedStopDone => FailedStopKeeps(h, c, a);
    case CancelFailedStop(_) => FailedStopKeeps(h, c, a);
  }

  lemma CancelledKeeps(h: Hypotheses, c: Call, a: Action)
    requires CallInv(h, c) && PhaseOf(a) == Cancelled && Allowed(h, Act(0, a)) && StepCancelled(c, a).Some?
    ensures var (d, e) := StepCancelled(c, a).value; CallInv(h, d) && EffectFits(c, d, e)
  {}

  lemma UnwindingKeeps(h: Hypotheses, c: Call, a: Action)
    requires CallInv(h, c) && PhaseOf(a) == Unwinding && Allowed(h, Act(0, a)) && StepUnwinding(c, a).Some?
    ensures var (d, e) := StepUnwinding(c, a).value; CallInv(h, d) && EffectFits(c, d, e)
  {}

  lemma WorkEndsKeeps(h: Hypotheses, c: Call, a: Action)
    requires a.WorkEnds?
    requires CallInv(h, c) && Allowed(h, Act(0, a)) && StepServing(c, a).Some?
    ensures var (d, e) := StepServing(c, a).value; CallInv(h, d) && EffectFits(c, d, e)
  {}

  lemma CloseKeeps(h: Hypotheses, c: Call, a: Action)
    requires a.CloseTransfers?
    requires CallInv(h, c) && Allowed(h, Act(0, a)) && StepServing(c, a).Some?
    ensures var (d, e) := StepServing(c, a).value; CallInv(h, d) && EffectFits(c, d, e)
  {}

  lemma ServingKeeps(h: Hypotheses, c: Call, a: Action)
    requires CallInv(h, c) && PhaseOf(a) == Serving && Allowed(h, Act(0, a)) && StepServing(c, a).Some?
    ensures var (d, e) := StepServing(c, a).value; CallInv(h, d) && EffectFits(c, d, e)
  {
    hide CallInv, StepServing, EffectFits, Allowed;
    match a
    case WorkEnds(_) => WorkEndsKeeps(h, c, a);
    case CloseTransfers => CloseKeeps(h, c, a);
  }

  lemma HandoverKeeps(h: Hypotheses, c: Call, a: Action)
    requires CallInv(h, c) && PhaseOf(a) == Handover && Allowed(h, Act(0, a)) && StepHandover(c, a).Some?
    ensures var (d, e) := StepHandover(c, a).value; CallInv(h, d) && EffectFits(c, d, e)
  {}

  lemma FinalStopKeeps(h: Hypotheses, c: Call, a: Action)
    requires a.FinalStopDone? || a.CancelFinalStop?
    requires CallInv(h, c) && Allowed(h, Act(0, a)) && StepFinishing(c, a).Some?
    ensures var (d, e) := StepFinishing(c, a).value; CallInv(h, d) && EffectFits(c, d, e)
  {}

  lemma OwnerReleaseKeeps(h: Hypotheses, c: Call, a: Action)
    requires a.OwnerReleases?
    requires CallInv(h, c) && Allowed(h, Act(0, a)) && StepFinishing(c, a).Some?
    ensures var (d, e) := StepFinishing(c, a).value; CallInv(h, d) && EffectFits(c, d, e)
  {}

  lemma FinishingKeeps(h: Hypotheses, c: Call, a: Action)
    requires CallInv(h, c) && PhaseOf(a) == Finishing && Allowed(h, Act(0, a)) && StepFinishing(c, a).Some?
    ensures var (d, e) := StepFinishing(c, a).value; CallInv(h, d) && EffectFits(c, d, e)
  {
    hide CallInv, StepFinishing, EffectFits, Allowed;
    match a
    case FinalStopDone => FinalStopKeeps(h, c, a);
    case CancelFinalStop(_) => FinalStopKeeps(h, c, a);
    case OwnerReleases => OwnerReleaseKeeps(h, c, a);
  }

  lemma LaunchKeeps(h: Hypotheses, c: Call, a: Action)
    requires a.Launch? || a.LaunchFails?
    requires CallInv(h, c) && Allowed(h, Act(0, a)) && StepStartFailure(c, a).Some?
    ensures var (d, e) := StepStartFailure(c, a).value; CallInv(h, d) && EffectFits(c, d, e)
  {}

  lemma FailureStopKeeps(h: Hypotheses, c: Call, a: Action)
    requires a.FailureStops?
    requires CallInv(h, c) && Allowed(h, Act(0, a)) && StepStartFailure(c, a).Some?
    ensures var (d, e) := StepStartFailure(c, a).value; CallInv(h, d) && EffectFits(c, d, e)
  {}

  lemma FailureLockKeeps(h: Hypotheses, c: Call, a: Action)
    requires a.FailureLocks?
    requires CallInv(h, c) && Allowed(h, Act(0, a)) && StepStartFailure(c, a).Some?
    ensures var (d, e) := StepStartFailure(c, a).value; CallInv(h, d) && EffectFits(c, d, e)
  {}

  lemma FailureReleaseKeeps(h: Hypotheses, c: Call, a: Action)
    requires a.FailureReleases?
    requires CallInv(h, c) && Allowed(h, Act(0, a)) && StepStartFailure(c, a).Some?
    ensures var (d, e) := StepStartFailure(c, a).value; CallInv(h, d) && EffectFits(c, d, e)
  {}

  lemma StartFailureKeeps(h: Hypotheses, c: Call, a: Action)
    requires CallInv(h, c) && PhaseOf(a) == StartFailure && Allowed(h, Act(0, a)) && StepStartFailure(c, a).Some?
    ensures var (d, e) := StepStartFailure(c, a).value; CallInv(h, d) && EffectFits(c, d, e)
  {
    hide CallInv, StepStartFailure, EffectFits, Allowed;
    match a
    case Launch => LaunchKeeps(h, c, a);
    case LaunchFails(_) => LaunchKeeps(h, c, a);
    case FailureStops(_) => FailureStopKeeps(h, c, a);
    case FailureLocks => FailureLockKeeps(h, c, a);
    case FailureReleases => FailureReleaseKeeps(h, c, a);
  }

  lemma LaunchedKeeps(h: Hypotheses, c: Call, a: Action)
    requires a.LaunchSucceeds?
    requires CallInv(h, c) && Allowed(h, Act(0, a)) && StepStartSuccess(c, a).Some?
    ensures var (d, e) := StepStartSuccess(c, a).value; CallInv(h, d) && EffectFits(c, d, e)
  {}

  lemma SuccessLockKeeps(h: Hypotheses, c: Call, a: Action)
    requires a.SuccessLocks?
    requires CallInv(h, c) && Allowed(h, Act(0, a)) && StepStartSuccess(c, a).Some?
    ensures var (d, e) := StepStartSuccess(c, a).value; CallInv(h, d) && EffectFits(c, d, e)
  {}

  lemma StarterStopKeeps(h: Hypotheses, c: Call, a: Action)
    requires a.StarterStops?
    requires CallInv(h, c) && Allowed(h, Act(0, a)) && StepStartSuccess(c, a).Some?
    ensures var (d, e) := StepStartSuccess(c, a).value; CallInv(h, d) && EffectFits(c, d, e)
  {}

  lemma StarterReleaseKeeps(h: Hypotheses, c: Call, a: Action)
    requires a.StarterReleases?
    requires CallInv(h, c) && Allowed(h, Act(0, a)) && StepStartSuccess(c, a).Some?
    ensures var (d, e) := StepStartSuccess(c, a).value; CallInv(h, d) && EffectFits(c, d, e)
  {}

  lemma StartSuccessKeeps(h: Hypotheses, c: Call, a: Action)
    requires CallInv(h, c) && PhaseOf(a) == StartSuccess && Allowed(h, Act(0, a)) && StepStartSuccess(c, a).Some?
    ensures var (d, e) := StepStartSuccess(c, a).value; CallInv(h, d) && EffectFits(c, d, e)
  {
    hide CallInv, StepStartSuccess, EffectFits, Allowed;
    match a
    case LaunchSucceeds => LaunchedKeeps(h, c, a);
    case SuccessLocks => SuccessLockKeeps(h, c, a);
    case StarterStops(_) => StarterStopKeeps(h, c, a);
    case StarterReleases => StarterReleaseKeeps(h, c, a);
  }

  lemma CleanerStopKeeps(h: Hypotheses, c: Call, a: Action)
    requires a.CleanerStops?
    requires CallInv(h, c) && Allowed(h, Act(0, a)) && StepCleanup(c, a).Some?
    ensures var (d, e) := StepCleanup(c, a).value; CallInv(h, d) && EffectFits(c, d, e)
  {}

  lemma CleanerReleaseKeeps(h: Hypotheses, c: Call, a: Action)
    requires a.CleanerReleases?
    requires CallInv(h, c) && Allowed(h, Act(0, a)) && StepCleanup(c, a).Some?
    ensures var (d, e) := StepCleanup(c, a).value; CallInv(h, d) && EffectFits(c, d, e)
  {}

  lemma StopperStopKeeps(h: Hypotheses, c: Call, a: Action)
    requires a.StopperStops?
    requires CallInv(h, c) && Allowed(h, Act(0, a)) && StepCleanup(c, a).Some?
    ensures var (d, e) := StepCleanup(c, a).value; CallInv(h, d) && EffectFits(c, d, e)
  {}

  lemma CleanupKeeps(h: Hypotheses, c: Call, a: Action)
    requires CallInv(h, c) && PhaseOf(a) == Cleanup && Allowed(h, Act(0, a)) && StepCleanup(c, a).Some?
    ensures var (d, e) := StepCleanup(c, a).value; CallInv(h, d) && EffectFits(c, d, e)
  {
    hide CallInv, StepCleanup, EffectFits, Allowed;
    match a
    case CleanerStops(_) => CleanerStopKeeps(h, c, a);
    case CleanerReleases => CleanerReleaseKeeps(h, c, a);
    case StopperStops(_) => StopperStopKeeps(h, c, a);
  }

  lemma CallStepKeeps(h: Hypotheses, c: Call, a: Action)
    requires CallInv(h, c) && Allowed(h, Act(0, a)) && StepCall(c, a).Some?
    ensures var (d, e) := StepCall(c, a).value; CallInv(h, d) && EffectFits(c, d, e)
  {
    match PhaseOf(a)
    case Acquiring => AcquiringKeeps(h, c, a);
    case AwaitingStart => AwaitingStartKeeps(h, c, a);
    case Cancelled => CancelledKeeps(h, c, a);
    case Unwinding => UnwindingKeeps(h, c, a);
    case Serving => ServingKeeps(h, c, a);
    case Handover => HandoverKeeps(h, c, a);
    case Finishing => FinishingKeeps(h, c, a);
    case StartFailure => StartFailureKeeps(h, c, a);
    case StartSuccess => StartSuccessKeeps(h, c, a);
    case Cleanup => CleanupKeeps(h, c, a);
  }

  // ---- every reachable state -----------------------------------------------

  lemma {:induction false} HeldAfterUpdate(calls: seq<Call>, i: nat, d: Call)
    requires i < |calls|
    ensures Held(calls[i := d]) == Held(calls) - (if Holds(calls[i]) then 1 else 0) + (if Holds(d) then 1 else 0)
  {
    if i == 0 {
      assert calls[0 := d][1..] == calls[1..];
    } else {
      assert calls[i := d][1..] == calls[1..][i - 1 := d];
      HeldAfterUpdate(calls[1..], i - 1, d);
    }
  }

  lemma StepKeeps(h: Hypotheses, s: System, e: Event)
    requires Inv(h, s) && Allowed(h, e) && Step(s, e).Some?
    ensures Inv(h, Step(s, e).value)
  {
    if e.Act? {
      CallStepKeeps(h, s.calls[e.call], e.action);
      HeldAfterUpdate(s.calls, e.call, StepCall(s.calls[e.call], e.action).value.0);
    }
  }

  lemma {:induction false} RunKeeps(h: Hypotheses, s: System, events: seq<Event>)
    requires Inv(h, s) && AllAllowed(h, events) && Run(s, events).Some?
    ensures Inv(h, Run(s, events).value)
    decreases |events|
  {
    if events != [] {
      assert events[0] in events;
      StepKeeps(h, s, events[0]);
      RunKeeps(h, Step(s, events[0]).value, events[1..]);
    }
  }

  lemma {:induction false} NothingHeld(calls: seq<Call>)
    requires forall i :: 0 <= i < |calls| ==> calls[i] == NEW_CALL
    ensures Held(calls) == 0
  {
    if calls != [] {
      NothingHeld(calls[1..]);
    }
  }

  ghost predicate Reaches(h: Hypotheses, n: nat, events: seq<Event>, s: System) {
    AllAllowed(h, events) && Run(Init(n), events) == Some(s)
  }

  lemma ReachableInv(h: Hypotheses, n: nat, events: seq<Event>, s: System)
    requires Reaches(h, n, events, s)
    ensures Inv(h, s)
  {
    NothingHeld(Init(n).calls);
    RunKeeps(h, Init(n), events);
  }

  const NO_HYPOTHESES := Hypotheses(false, false, false)

  /**
   Permit conservation, over every interleaving of any number of calls and with
   no hypothesis: permits are free, held, on their way back, or lost to a closed
   loop; no call gives its permit back twice.
   */
  lemma PermitsConserved(n: nat, events: seq<Event>, s: System)
    requires Reaches(NO_HYPOTHESES, n, events, s)
    ensures s.free + s.posted + s.lost + Held(s.calls) == MAX_CONCURRENT
    ensures s.lost > 0 ==> s.closed
    ensures forall c <- s.calls :: |c.releases| <= 1
  {
    ReachableInv(NO_HYPOTHESES, n, events, s);
  }

  /**
   The cleanup is claimed by at most one side, and the owner never sees the
   start thread answer False: whenever that answer exists the owner has already
   left the await.
   */
  lemma CleanupClaimedOnce(n: nat, events: seq<Event>, s: System, c: Call)
    requires Reaches(NO_HYPOTHESES, n, events, s) && c in s.calls
    ensures StarterClaimed(c) ==>
              c.cleaner.NoThread? && !c.owner.Deferring? && !c.owner.Reclaiming?
              && !c.owner.StoppingInline? && !c.owner.ReturningSlot?
    ensures c.owner.Starting? ==> c.starter != Returned(false)
  {
    ReachableInv(NO_HYPOTHESES, n, events, s);
  }

  lemma {:induction false} LiveAtMostHeld(calls: seq<Call>)
    requires forall c <- calls :: c.alive ==> Holds(c)
    ensures Live(calls) <= Held(calls)
  {
    if calls != [] {
      LiveAtMostHeld(calls[1..]);
    }
  }

  /**
   Reap before release: when stops finish, every live child is covered by a
   permit its call has not given back, so at most two children ever live.
   */
  lemma ReapBeforeRelease(n: nat, events: seq<Event>, s: System, jobsRun: bool)
    requires Reaches(Hypotheses(jobsRun, true, true), n, events, s)
    ensures forall c <- s.calls :: c.alive ==> Holds(c) && c.releases == []
    ensures Live(s.calls) + s.free + s.posted <= MAX_CONCURRENT
  {
    ReachableInv(Hypotheses(jobsRun, true, true), n, events, s);
    LiveAtMostHeld(s.calls);
  }
}
