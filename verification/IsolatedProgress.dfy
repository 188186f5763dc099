/** Every schedule of isolated calls is bounded, and one with nothing left to do has drained the pool. */
module IsolatedProgress {
  import opened Basics
  import opened Isolated
  import opened IsolatedSafety

  // ---- every run ends, and ends drained ------------------------------------

  function OwnerRank(o: Owner): nat {
    match o
    case Waiting => 180
    case Granted => 160
    case Starting => 140
    case Transferring | Working => 120
    case Publishing | Closing => 100
    case Deferring | Handing | StoppingFailed => 80
    case Reclaiming | TakingBack => 60
    case StoppingInline | StoppingFinal | ReturningSlot => 40
    case Leaving => 20
    case Done => 0
  }

  function StarterRank(t: Starter): nat {
    match t
    case Queued => 10
    case Launching => 8
    case Failing | SuccessLocking => 6
    case FailureLocking | Stopping => 4
    case FailureReleasing | StopReleasing => 2
    case _ => 0
  }

  function CallRank(c: Call): nat {
    OwnerRank(c.owner) + StarterRank(c.starter)
    + (match c.cleaner case Reaping => 4 case HandingBack => 2 case _ => 0)
    + (if c.stopper.Busy? then 1 else 0)
  }

  function TotalRank(calls: seq<Call>): nat {
    if calls == [] then 0 else CallRank(calls[0]) + TotalRank(calls[1..])
  }

  function Rank(s: System): nat {
    TotalRank(s.calls) + s.posted + (if s.closed then 0 else 1)
  }

  ghost predicate RankDrops(c: Call, next: (Call, Effect)) {
    CallRank(next.0) + (if next.1.PostsPermit? then 1 else 0) < CallRank(c)
  }

  lemma EarlyRankDrops(c: Call, a: Action)
    requires PhaseOf(a) in {Acquiring, AwaitingStart, Cancelled, Unwinding} && StepCall(c, a).Some?
    ensures RankDrops(c, StepCall(c, a).value)
  {
  }

  lemma LateRankDrops(c: Call, a: Action)
    requires PhaseOf(a) in {Serving, Handover, Finishing} && StepCall(c, a).Some?
    ensures RankDrops(c, StepCall(c, a).value)
  {
  }

  lemma StartThreadRankDrops(c: Call, a: Action)
    requires PhaseOf(a) in {StartFailure, StartSuccess} && StepCall(c, a).Some?
    ensures RankDrops(c, StepCall(c, a).value)
  {
  }

  lemma CleanupRankDrops(c: Call, a: Action)
    requires PhaseOf(a) == Cleanup && StepCall(c, a).Some?
    ensures RankDrops(c, StepCall(c, a).value)
  {
  }

  lemma CallRankDrops(c: Call, a: Action)
    requires StepCall(c, a).Some?
    ensures RankDrops(c, StepCall(c, a).value)
  {
    if PhaseOf(a) == Cleanup {
      CleanupRankDrops(c, a);
    } else if !OnLoop(a) {
      StartThreadRankDrops(c, a);
    } else if PhaseOf(a) in {Serving, Handover, Finishing} {
      LateRankDrops(c, a);
    } else {
      EarlyRankDrops(c, a);
    }
  }

  lemma {:induction false} TotalRankAfterUpdate(calls: seq<Call>, i: nat, d: Call)
    requires i < |calls|
    ensures TotalRank(calls[i := d]) == TotalRank(calls) - CallRank(calls[i]) + CallRank(d)
  {
    if i == 0 {
      assert calls[0 := d][1..] == calls[1..];
    } else {
      assert calls[i := d][1..] == calls[1..][i - 1 := d];
      TotalRankAfterUpdate(calls[1..], i - 1, d);
    }
  }

  lemma {:induction false} RankBoundsRun(s: System, events: seq<Event>)
    requires Run(s, events).Some?
    ensures |events| + Rank(Run(s, events).value) <= Rank(s)
    decreases |events|
  {
    if events != [] {
      var e := events[0];
      if e.Act? {
        CallRankDrops(s.calls[e.call], e.action);
        TotalRankAfterUpdate(s.calls, e.call, StepCall(s.calls[e.call], e.action).value.0);
      }
      RankBoundsRun(Step(s, e).value, events[1..]);
    }
  }

  lemma {:induction false} FreshRank(calls: seq<Call>)
    requires forall i :: 0 <= i < |calls| ==> calls[i] == NEW_CALL
    ensures TotalRank(calls) == 180 * |calls|
  {
    if calls != [] {
      FreshRank(calls[1..]);
    }
  }

  /** No schedule, however adversarial, is longer than this. */
  lemma RunsAreBounded(n: nat, events: seq<Event>)
    requires Run(Init(n), events).Some?
    ensures |events| <= 180 * n + 1
  {
    FreshRank(Init(n).calls);
    RankBoundsRun(Init(n), events);
  }

  /** All three parties of a call are through with it. */
  predicate Finished(c: Call) {
    && c.owner.Done?
    && StarterRank(c.starter) == 0
    && (c.cleaner.NoThread? || c.cleaner.Gone?)
    && !c.stopper.Busy?
  }

  /** What the threads of a call do next, when no child outlives its stop. */
  function NextOfThreads(c: Call): Option<Action> {
    match c.starter
    case Queued => Some(Launch)
    case Launching => Some(LaunchSucceeds)
    case Failing => Some(FailureStops(true))
    case FailureLocking => Some(FailureLocks)
    case FailureReleasing => Some(FailureReleases)
    case SuccessLocking => Some(SuccessLocks)
    case Stopping => Some(StarterStops(true))
    case StopReleasing => Some(StarterReleases)
    case _ =>
      if c.cleaner.Reaping? then Some(CleanerStops(true))
      else if c.cleaner.HandingBack? then Some(CleanerReleases)
      else if c.stopper.Busy? then Some(StopperStops(true))
      else None
  }

  /** What the owner does next when nothing fails and nobody cancels it. */
  function NextOfOwner(c: Call): Action {
    match c.owner
    case Waiting => Grant
    case Granted => Submit
    case Starting => if c.starter.Raised? then SeesFailure(true) else SeesStarted
    case Transferring => OwnerTransfers
    case Publishing => OwnerPublishes
    case Deferring => DeferStarts
    case Reclaiming => OwnerReclaims
    case StoppingInline => InlineStops(true)
    case ReturningSlot => OwnerReturnsSlot
    case StoppingFailed => FailedStopDone
    case Working => WorkEnds(false)
    case Closing => CloseTransfers
    case Handing => HandStarts
    case TakingBack => OwnerTakesBack
    case StoppingFinal => FinalStopDone
    case Leaving | Done => OwnerReleases
  }

  function NextAction(c: Call): Action {
    match NextOfThreads(c) case Some(a) => a case None => NextOfOwner(c)
  }

  lemma ThreadsMove(c: Call)
    requires NextOfThreads(c).Some?
    ensures var next := StepCall(c, NextOfThreads(c).value); next.Some? && !next.value.1.TakesPermit?
  {
  }

  lemma OwnerMoves(c: Call)
    requires Shape(c) && NextOfThreads(c).None? && !c.owner.Done?
    ensures StepCall(c, NextOfOwner(c)).Some?
    ensures StepCall(c, NextOfOwner(c)).value.1.TakesPermit? ==> c.owner.Waiting?
  {
  }

  /** No call can be moved on by its own code, and no posted release is left. */
  ghost predicate Quiet(s: System) {
    && (forall i | 0 <= i < |s.calls| :: Step(s, Act(i, NextAction(s.calls[i]))).None?)
    && Step(s, Deliver).None?
  }

  lemma FinishedGaveBack(c: Call)
    requires Shape(c) && (Finished(c) || c.owner.Waiting?)
    ensures Holds(c) <==> c.starter.Dropped?
    ensures c.permit ==> |c.releases| == if c.starter.Dropped? then 0 else 1
  {
  }

  /** In a quiet open pool a permit is missing only with a call whose start job was dropped. */
  lemma QuietCall(s: System, i: nat)
    requires !s.closed && Quiet(s) && i < |s.calls| && Shape(s.calls[i])
    ensures var c := s.calls[i];
      && (Finished(c) || (c.owner.Waiting? && s.free == 0))
      && (Holds(c) <==> c.starter.Dropped?)
      && (c.permit ==> |c.releases| == if c.starter.Dropped? then 0 else 1)
  {
    var c := s.calls[i];
    assert Step(s, Act(i, NextAction(c))).None?;
    if NextOfThreads(c).Some? {
      ThreadsMove(c);
    } else if !c.owner.Done? {
      OwnerMoves(c);
    }
    FinishedGaveBack(c);
  }

  lemma {:induction false} NoneHeld(calls: seq<Call>)
    requires forall i :: 0 <= i < |calls| ==> !Holds(calls[i])
    ensures Held(calls) == 0
  {
    if calls != [] {
      NoneHeld(calls[1..]);
    }
  }

  /**
   Exactly-once release. Provided submitted start jobs run and the loop stays
   open, a schedule that has nothing left to do has finished every call, has
   both permits back in the pool, and every call that got a permit gave it back
   exactly once -- owner, start thread or cleanup thread, never two of them.
   */
  lemma QuietIsDrained(n: nat, events: seq<Event>, s: System, stopsReap: bool, finalAwaited: bool)
    requires Reaches(Hypotheses(true, stopsReap, finalAwaited), n, events, s)
    requires !s.closed && Quiet(s)
    ensures s.free == MAX_CONCURRENT && s.posted == 0
    ensures forall c <- s.calls :: Finished(c) && (c.permit ==> |c.releases| == 1)
  {
    var h := Hypotheses(true, stopsReap, finalAwaited);
    ReachableInv(h, n, events, s);
    forall i | 0 <= i < |s.calls|
      ensures !Holds(s.calls[i])
      ensures Finished(s.calls[i]) || (s.calls[i].owner.Waiting? && s.free == 0)
      ensures s.calls[i].permit ==> |s.calls[i].releases| == 1
    {
      assert s.calls[i] in s.calls;
      QuietCall(s, i);
    }
    NoneHeld(s.calls);
    assert Step(s, Deliver).None?;
  }
}
