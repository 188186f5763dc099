/**
 The start / cancel / cleanup race of one isolated parser call, and the pool of
 two permits that all calls share.

 Three parties act for a call: the owning task, the thread running
 `process.start()`, and possibly a cleanup thread. A fourth, `stopper`, is the
 executor job of an awaited `_stop_process`. Every lock-guarded block and every
 stretch of a coroutine between two awaits is one action; any party may move
 next. Cancellation may arrive at every await of the owner.
 */
module Isolated {
  import opened Basics
  import opened Slots

  const MAX_CONCURRENT: nat := 2

  // ---- the four flags that owner and start thread share under a lock --------

  datatype Flags = Flags(started: bool, finished: bool, cancelled: bool, claimed: bool)

  const NEW_FLAGS := Flags(false, false, false, false)

  /** May a start thread that has just finished take the cleanup on itself? */
  predicate StarterClaims(f: Flags) {
    f.cancelled && !f.claimed
  }

  function AfterStart(f: Flags, succeeded: bool): Flags {
    Flags(f.started || succeeded, true, f.cancelled, f.claimed || StarterClaims(f))
  }

  /** May a cancelled owner take the cleanup on itself? */
  predicate OwnerClaims(f: Flags) {
    !f.claimed && (f.started || f.finished)
  }

  function AfterCancel(f: Flags): Flags {
    f.(cancelled := true, claimed := f.claimed || OwnerClaims(f))
  }

  /** The shared dictionary, with the three lock-guarded blocks that touch it. */
  class SharedState {
    var started: bool
    var finished: bool
    var cancelled: bool
    var claimed: bool

    function View(): Flags
      reads this
    {
      Flags(started, finished, cancelled, claimed)
    }

    constructor ()
      ensures View() == NEW_FLAGS
    {
      started, finished, cancelled, claimed := false, false, false, false;
    }

    method PublishStart(succeeded: bool) returns (cleanup: bool)
      modifies this
      ensures View() == AfterStart(old(View()), succeeded)
      ensures cleanup == StarterClaims(old(View()))
    {
      cleanup := false;
      if succeeded {
        started := true;
      }
      finished := true;
      if cancelled && !claimed {
        claimed := true;
        cleanup := true;
      }
    }

    method PublishCancel() returns (cleanup: bool, releaseSlot: bool)
      modifies this
      ensures View() == AfterCancel(old(View()))
      ensures cleanup == (OwnerClaims(old(View())) && old(started))
      ensures releaseSlot == (OwnerClaims(old(View())) && !old(started))
    {
      cleanup, releaseSlot := false, false;
      cancelled := true;
      if !claimed {
        if started {
          claimed, cleanup := true, true;
        } else if finished {
          claimed, releaseSlot := true, true;
        }
      }
    }
  }

  // ---- one call ------------------------------------------------------------

  datatype Owner =
    | Waiting            // for a permit
    | Granted            // a permit is set aside, the task has not resumed
    | Starting           // awaiting the start thread
    | Transferring       // cancelled while starting: about to transfer the slot
    | Publishing         // about to publish the cancellation
    | Deferring          // claimed a live child: about to start a cleanup thread
    | Reclaiming         // that thread could not start: about to untransfer
    | StoppingInline     // ... and to stop the child itself
    | ReturningSlot      // claimed a failed start: only the slot is left
    | StoppingFailed     // start failed, awaiting the stop of what is left
    | Working            // child started, result awaited
    | Closing            // leaving while cancelled: about to transfer
    | Handing            // ... and to start the cleanup thread
    | TakingBack         // that thread could not start: about to untransfer
    | StoppingFinal      // awaiting the final stop
    | Leaving            // about to run the outermost release
    | Done

  datatype Starter =
    | NotSubmitted | Queued
    | Dropped            // cancelled in the executor's queue, never runs
    | Launching          // inside process.start()
    | Failing | FailureLocking | FailureReleasing
    | SuccessLocking | Stopping | StopReleasing
    | Returned(value: bool) | Raised

  datatype Cleaner = NoThread | Reaping | HandingBack | Gone

  datatype Stopper =
    | Idle | Busy | Over
    | Withdrawn          // cancelled in the executor's queue, never runs

  datatype Role = OwnerTask | StartThread | CleanupThread

  datatype Call = Call(
    owner: Owner,
    starter: Starter,
    cleaner: Cleaner,
    stopper: Stopper,
    flags: Flags,
    handle: Handle,
    permit: bool,          // has this call ever been given a permit to keep?
    alive: bool,           // a child exists and has not been reaped
    releases: seq<Role>)   // who gave the permit back

  const NEW_CALL := Call(Waiting, NotSubmitted, NoThread, Idle, NEW_FLAGS, NEW_HANDLE, false, false, [])

  datatype Action =
    // owner
    | Grant | CancelWaiting | CancelGranted
    | CreateFails | Submit
    | SeesStarted | SeesFailure(caught: bool)
    | CancelStarting(dropsJob: bool)
    | OwnerTransfers | OwnerPublishes
    | DeferStarts | DeferFails | OwnerReclaims | InlineStops(reaps: bool) | OwnerReturnsSlot
    | FailedStopDone | CancelFailedStop(dropsStop: bool)
    | WorkEnds(cancelling: bool)
    | CloseTransfers | HandStarts | HandFails | OwnerTakesBack
    | FinalStopDone | CancelFinalStop(dropsStop: bool)
    | OwnerReleases
    // start thread
    | Launch | LaunchSucceeds | LaunchFails(leavesChild: bool)
    | FailureStops(reaps: bool) | FailureLocks | FailureReleases
    | SuccessLocks | StarterStops(reaps: bool) | StarterReleases
    // cleanup thread and executor stop job
    | CleanerStops(reaps: bool) | CleanerReleases | StopperStops(reaps: bool)

  /** What an action does to the shared pool. */
  datatype Effect = Nothing | TakesPermit | GivesPermit | PostsPermit

  datatype Phase = Acquiring | AwaitingStart | Cancelled | Unwinding | Serving | Handover | Finishing | StartFailure | StartSuccess | Cleanup

  function PhaseOf(a: Action): Phase {
    match a
    case Grant | CancelWaiting | CancelGranted | CreateFails | Submit => Acquiring
    case SeesStarted | SeesFailure(_) | CancelStarting(_) | FailedStopDone | CancelFailedStop(_) => AwaitingStart
    case OwnerTransfers | OwnerPublishes | DeferStarts | DeferFails => Cancelled
    case OwnerReclaims | InlineStops(_) | OwnerReturnsSlot => Unwinding
    case WorkEnds(_) | CloseTransfers => Serving
    case HandStarts | HandFails | OwnerTakesBack => Handover
    case FinalStopDone | CancelFinalStop(_) | OwnerReleases => Finishing
    case Launch | LaunchFails(_) | FailureStops(_) | FailureLocks | FailureReleases => StartFailure
    case LaunchSucceeds | SuccessLocks | StarterStops(_) | StarterReleases => StartSuccess
    case CleanerStops(_) | CleanerReleases | StopperStops(_) => Cleanup
  }

  /** The owner's own code runs on the event loop; everything else in threads. */
  predicate OnLoop(a: Action) {
    var p := PhaseOf(a);
    !(p.StartFailure? || p.StartSuccess? || p.Cleanup?)
  }

  function Stop(c: Call, reaps: bool): Call {
    if reaps then c.(alive := false) else c
  }

  /** Cancelled while awaiting a stop; a stop job that is still queued may go with the await. */
  function LeaveStop(c: Call, drops: bool): Call {
    c.(owner := Leaving, stopper := if drops then Withdrawn else c.stopper)
  }

  /** `release_from_thread` on behalf of `who`. */
  function ThreadRelease(c: Call, who: Role): (Call, Effect) {
    if c.handle.released then (c, Nothing)
    else (c.(handle := MarkReleased(c.handle), releases := c.releases + [who]), PostsPermit)
  }

  function OwnerRelease(c: Call): (Call, Effect) {
    if OwnerMayRelease(c.handle)
    then (c.(handle := MarkReleased(c.handle), releases := c.releases + [OwnerTask]), GivesPermit)
    else (c, Nothing)
  }

  function When(guard: bool, next: Call): Option<(Call, Effect)> {
    if guard then Some((next, Nothing)) else None
  }

  function StepAcquiring(c: Call, a: Action): Option<(Call, Effect)>
    requires PhaseOf(a) == Acquiring
  {
    match a
    case Grant =>
      if c.owner.Waiting? then Some((c.(owner := Granted, permit := true), TakesPermit)) else None
    case CancelWaiting => When(c.owner.Waiting?, c.(owner := Done))
    case CancelGranted =>
      if c.owner.Granted? then Some((c.(owner := Done, permit := false), GivesPermit)) else None
    case CreateFails => When(c.owner.Granted?, c.(owner := Leaving))
    case Submit => When(c.owner.Granted?, c.(owner := Starting, starter := Queued))
  }

  function StepAwaitingStart(c: Call, a: Action): Option<(Call, Effect)>
    requires PhaseOf(a) == AwaitingStart
  {
    match a
    case SeesStarted =>
      When(c.owner.Starting? && c.starter.Returned?,
           c.(owner := if c.starter == Returned(true) then Working else Leaving))
    case SeesFailure(caught) =>
      When(c.owner.Starting? && c.starter.Raised?,
           if caught then c.(owner := StoppingFailed, stopper := Busy) else c.(owner := Leaving))
    case CancelStarting(drops) =>
      When(c.owner.Starting? && (drops ==> c.starter.Queued?),
           c.(owner := Transferring, starter := if drops then Dropped else c.starter))
    case FailedStopDone => When(c.owner.StoppingFailed? && c.stopper.Over?, c.(owner := Leaving))
    case CancelFailedStop(drops) =>
      When(c.owner.StoppingFailed? && (drops ==> c.stopper.Busy?), LeaveStop(c, drops))
  }

  function StepCancelled(c: Call, a: Action): Option<(Call, Effect)>
    requires PhaseOf(a) == Cancelled
  {
    match a
    case OwnerTransfers =>
      When(c.owner.Transferring?, c.(owner := Publishing, handle := AfterTransfer(c.handle)))
    case OwnerPublishes =>
      When(c.owner.Publishing?,
           c.(flags := AfterCancel(c.flags),
              owner := if !OwnerClaims(c.flags) then Leaving
                       else if c.flags.started then Deferring else ReturningSlot))
    case DeferStarts => When(c.owner.Deferring?, c.(owner := Leaving, cleaner := Reaping))
    case DeferFails => When(c.owner.Deferring?, c.(owner := Reclaiming))
  }

  function StepUnwinding(c: Call, a: Action): Option<(Call, Effect)>
    requires PhaseOf(a) == Unwinding
  {
    match a
    case OwnerReclaims =>
      When(c.owner.Reclaiming?, c.(owner := StoppingInline, handle := AfterUntransfer(c.handle)))
    case InlineStops(reaps) => When(c.owner.StoppingInline?, Stop(c, reaps).(owner := Leaving))
    case OwnerReturnsSlot =>
      if c.owner.ReturningSlot? then Some(ThreadRelease(c.(owner := Leaving), OwnerTask)) else None
  }

  function StepServing(c: Call, a: Action): Option<(Call, Effect)>
    requires PhaseOf(a) == Serving
  {
    match a
    case WorkEnds(cancelling) =>
      When(c.owner.Working?,
           if cancelling then c.(owner := Closing) else c.(owner := StoppingFinal, stopper := Busy))
    case CloseTransfers => When(c.owner.Closing?, c.(owner := Handing, handle := AfterTransfer(c.handle)))
  }

  function StepHandover(c: Call, a: Action): Option<(Call, Effect)>
    requires PhaseOf(a) == Handover
  {
    match a
    case HandStarts => When(c.owner.Handing?, c.(owner := Leaving, cleaner := Reaping))
    case HandFails => When(c.owner.Handing?, c.(owner := TakingBack))
    case OwnerTakesBack =>
      When(c.owner.TakingBack?,
           c.(owner := StoppingFinal, stopper := Busy, handle := AfterUntransfer(c.handle)))
  }

  function StepFinishing(c: Call, a: Action): Option<(Call, Effect)>
    requires PhaseOf(a) == Finishing
  {
    match a
    case FinalStopDone => When(c.owner.StoppingFinal? && c.stopper.Over?, c.(owner := Leaving))
    case CancelFinalStop(drops) =>
      When(c.owner.StoppingFinal? && (drops ==> c.stopper.Busy?), LeaveStop(c, drops))
    case OwnerReleases =>
      if c.owner.Leaving? then Some(OwnerRelease(c.(owner := Done))) else None
  }

  function StepStartFailure(c: Call, a: Action): Option<(Call, Effect)>
    requires PhaseOf(a) == StartFailure
  {
    match a
    case Launch => When(c.starter.Queued?, c.(starter := Launching))
    case LaunchFails(leaves) => When(c.starter.Launching?, c.(starter := Failing, alive := leaves))
    case FailureStops(reaps) => When(c.starter.Failing?, Stop(c, reaps).(starter := FailureLocking))
    case FailureLocks =>
      When(c.starter.FailureLocking?,
           c.(flags := AfterStart(c.flags, false),
              starter := if StarterClaims(c.flags) then FailureReleasing else Raised))
    case FailureReleases =>
      if c.starter.FailureReleasing? then Some(ThreadRelease(c.(starter := Raised), StartThread)) else None
  }

  function StepStartSuccess(c: Call, a: Action): Option<(Call, Effect)>
    requires PhaseOf(a) == StartSuccess
  {
    match a
    case LaunchSucceeds => When(c.starter.Launching?, c.(starter := SuccessLocking, alive := true))
    case SuccessLocks =>
      When(c.starter.SuccessLocking?,
           c.(flags := AfterStart(c.flags, true),
              starter := if StarterClaims(c.flags) then Stopping else Returned(true)))
    case StarterStops(reaps) => When(c.starter.Stopping?, Stop(c, reaps).(starter := StopReleasing))
    case StarterReleases =>
      if c.starter.StopReleasing? then Some(ThreadRelease(c.(starter := Returned(false)), StartThread)) else None
  }

  function StepCleanup(c: Call, a: Action): Option<(Call, Effect)>
    requires PhaseOf(a) == Cleanup
  {
    match a
    case CleanerStops(reaps) => When(c.cleaner.Reaping?, Stop(c, reaps).(cleaner := HandingBack))
    case CleanerReleases =>
      if c.cleaner.HandingBack? then Some(ThreadRelease(c.(cleaner := Gone), CleanupThread)) else None
    case StopperStops(reaps) => When(c.stopper.Busy?, Stop(c, reaps).(stopper := Over))
  }

  function StepCall(c: Call, a: Action): Option<(Call, Effect)> {
    match PhaseOf(a)
    case Acquiring => StepAcquiring(c, a)
    case AwaitingStart => StepAwaitingStart(c, a)
    case Cancelled => StepCancelled(c, a)
    case Unwinding => StepUnwinding(c, a)
    case Serving => StepServing(c, a)
    case Handover => StepHandover(c, a)
    case Finishing => StepFinishing(c, a)
    case StartFailure => StepStartFailure(c, a)
    case StartSuccess => StepStartSuccess(c, a)
    case Cleanup => StepCleanup(c, a)
  }

  // ---- the pool ------------------------------------------------------------

  datatype System = System(
    free: nat,        // the semaphore's value
    posted: nat,      // release callbacks waiting in the loop
    lost: nat,        // releases refused by a closed loop
    closed: bool,
    calls: seq<Call>)

  datatype Event = Act(call: nat, action: Action) | Deliver | CloseLoop

  function Init(n: nat): System {
    System(MAX_CONCURRENT, 0, 0, false, seq(n, _ => NEW_CALL))
  }

  function Absorb(s: System, e: Effect): Option<System> {
    match e
    case Nothing => Some(s)
    case TakesPermit => if s.free > 0 then Some(s.(free := s.free - 1)) else None
    case GivesPermit => Some(s.(free := s.free + 1))
    case PostsPermit => Some(if s.closed then s.(lost := s.lost + 1) else s.(posted := s.posted + 1))
  }

  function Step(s: System, e: Event): Option<System> {
    match e
    case Act(i, a) =>
      if i >= |s.calls| || (s.closed && OnLoop(a)) then None
      else
        (match StepCall(s.calls[i], a)
         case None => None
         case Some((c, effect)) => Absorb(s.(calls := s.calls[i := c]), effect))
    case Deliver =>
      if s.posted > 0 && !s.closed then Some(s.(posted := s.posted - 1, free := s.free + 1)) else None
    case CloseLoop =>
      if s.closed then None else Some(s.(closed := true))
  }

  /** Runs a whole schedule; None when some event of it was not enabled. */
  function Run(s: System, events: seq<Event>): Option<System>
    decreases |events|
  {
    if events == [] then Some(s)
    else
      match Step(s, events[0])
      case None => None
      case Some(t) => Run(t, events[1..])
  }

  // ---- hypotheses about the environment ------------------------------------

  /**
   `jobsRun`: a start job handed to the executor eventually runs.
   `stopsReap`: a `_stop_process` that runs reaps its child.
   `finalAwaited`: no cancellation is delivered while the final stop is awaited.
   */
  datatype Hypotheses = Hypotheses(jobsRun: bool, stopsReap: bool, finalAwaited: bool)

  predicate Reaps(a: Action) {
    match a
    case InlineStops(r) => r
    case FailureStops(r) => r
    case StarterStops(r) => r
    case CleanerStops(r) => r
    case StopperStops(r) => r
    case _ => true
  }

  predicate Allowed(h: Hypotheses, e: Event) {
    e.Act? ==>
      && (h.jobsRun ==> e.action != CancelStarting(true))
      && (h.stopsReap ==> Reaps(e.action))
      && (h.finalAwaited ==> !e.action.CancelFinalStop?)
  }

  ghost predicate AllAllowed(h: Hypotheses, events: seq<Event>) {
    forall e <- events :: Allowed(h, e)
  }
}
