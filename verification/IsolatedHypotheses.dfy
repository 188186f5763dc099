/** Runs that show what goes wrong without each hypothesis about the environment. */
module IsolatedHypotheses {
  import opened Basics
  import opened Slots
  import opened Isolated
  import opened IsolatedSafety
  import opened IsolatedProgress

  // ---- what the hypotheses are for -----------------------------------------

  const DROPPED_JOB := [Grant, Submit, CancelStarting(true), OwnerTransfers, OwnerPublishes, OwnerReleases]
  const CANCELLED_STOP :=
    [Grant, Submit, Launch, LaunchSucceeds, SuccessLocks, SeesStarted, WorkEnds(false), CancelFinalStop(false), OwnerReleases]

  function Script(i: nat, actions: seq<Action>): seq<Event> {
    seq(|actions|, k requires 0 <= k < |actions| => Act(i, actions[k]))
  }

  /** A call abandoned with its child alive and its permit back in the pool. */
  const ORPHAN := NEW_CALL.(owner := Done, starter := Returned(true), stopper := Busy, permit := true, alive := true,
                            flags := Flags(true, true, false, false), handle := Handle(true, false), releases := [OwnerTask])

  const LEAK := NEW_CALL.(owner := Done, starter := Dropped, permit := true,
                          flags := Flags(false, false, true, false), handle := Handle(false, true))

  /** A call and the semaphore's value, moved on by one action that posts nothing. */
  function StepAlone(x: (Call, nat), a: Action): Option<(Call, nat)> {
    match StepCall(x.0, a)
    case None => None
    case Some((d, Nothing)) => Some((d, x.1))
    case Some((d, TakesPermit)) => if x.1 == 0 then None else Some((d, x.1 - 1))
    case Some((d, GivesPermit)) => Some((d, x.1 + 1))
    case Some((_, PostsPermit)) => None
  }

  ghost predicate Follows(path: seq<(Call, nat)>, actions: seq<Action>) {
    && |path| == |actions| + 1
    && forall k | 0 <= k < |actions| :: StepAlone(path[k], actions[k]) == Some(path[k + 1])
  }

  lemma {:induction false} ScriptRuns(s: System, i: nat, path: seq<(Call, nat)>, actions: seq<Action>)
    requires i < |s.calls| && !s.closed
    requires Follows(path, actions) && path[0] == (s.calls[i], s.free)
    ensures var (d, free) := path[|actions|];
      Run(s, Script(i, actions)) == Some(s.(calls := s.calls[i := d], free := free))
    decreases |actions|
  {
    hide StepCall;
    var (d, free) := path[|actions|];
    if actions == [] {
      assert s.calls[i := s.calls[i]] == s.calls;
    } else {
      var events := Script(i, actions);
      assert events[0] == Act(i, actions[0]) && events[1..] == Script(i, actions[1..]);
      assert StepAlone(path[0], actions[0]) == Some(path[1]);
      var t := Step(s, events[0]).value;
      ScriptRuns(t, i, path[1..], actions[1..]);
      assert t.calls[i := d] == s.calls[i := d];
    }
  }

  const LEAK_PATH: seq<(Call, nat)> :=
    [(NEW_CALL, 2), (NEW_CALL.(permit := true, owner := Granted), 1),
     (NEW_CALL.(permit := true, owner := Starting, starter := Queued), 1),
     (NEW_CALL.(permit := true, owner := Transferring, starter := Dropped), 1),
     (LEAK.(owner := Publishing, flags := NEW_FLAGS), 1), (LEAK.(owner := Leaving), 1), (LEAK, 1)]

  lemma LeakPath()
    ensures Follows(LEAK_PATH, DROPPED_JOB)
  {
  }

  lemma LeakIsQuiet(s: System)
    requires s.calls == [LEAK] && s.posted == 0
    ensures Quiet(s)
  {
  }

  /**
   Without `jobsRun` the exactly-once half fails: a start job cancelled in the
   executor's queue leaves a quiet pool that is one permit short for good.
   */
  lemma DroppedJobLeaks()
    ensures exists events: seq<Event>, s: System ::
      Reaches(Hypotheses(false, true, true), 1, events, s) && Quiet(s) && !s.closed && s.free == 1
  {
    var h, events := Hypotheses(false, true, true), Script(0, DROPPED_JOB);
    var s := Init(1).(calls := Init(1).calls[0 := LEAK], free := 1);
    LeakPath();
    LeakIsQuiet(s);
    hide StepCall, NextAction;
    ScriptRuns(Init(1), 0, LEAK_PATH, DROPPED_JOB);
    ScriptAllowed(h, DROPPED_JOB);
    assert Reaches(h, 1, events, s);
  }

  lemma ScriptAllowed(h: Hypotheses, actions: seq<Action>)
    requires forall a <- actions :: Allowed(h, Act(0, a))
    ensures AllAllowed(h, Script(0, actions))
  {
  }

  function OrphanPath(free: nat): seq<(Call, nat)>
    requires free > 0
  {
    var c, d := NEW_CALL.(permit := true), ORPHAN.(handle := NEW_HANDLE, releases := []);
    [(NEW_CALL, free), (c.(owner := Granted), free - 1), (c.(owner := Starting, starter := Queued), free - 1),
     (c.(owner := Starting, starter := Launching), free - 1),
     (c.(owner := Starting, starter := SuccessLocking, alive := true), free - 1),
     (d.(owner := Starting, stopper := Idle), free - 1), (d.(owner := Working, stopper := Idle), free - 1),
     (d.(owner := StoppingFinal), free - 1), (d.(owner := Leaving), free - 1), (ORPHAN, free)]
  }

  lemma OrphanStarts(free: nat, k: nat)
    requires free > 0 && k < 5
    ensures StepAlone(OrphanPath(free)[k], CANCELLED_STOP[k]) == Some(OrphanPath(free)[k + 1])
  {
  }

  lemma OrphanEnds(free: nat, k: nat)
    requires free > 0 && 5 <= k < |CANCELLED_STOP|
    ensures StepAlone(OrphanPath(free)[k], CANCELLED_STOP[k]) == Some(OrphanPath(free)[k + 1])
  {
    var none: seq<Role> := [];
    assert none + [OwnerTask] == [OwnerTask];
  }

  function OrphanEvents(k: nat): seq<Event> {
    if k == 0 then [] else OrphanEvents(k - 1) + Script(k - 1, CANCELLED_STOP)
  }

  function Orphaned(n: nat, k: nat): System
    requires k <= n
  {
    Init(n).(calls := seq(n, i => if i < k then ORPHAN else NEW_CALL))
  }

  lemma {:induction false} OrphansPileUp(n: nat, k: nat)
    requires k <= n
    ensures Run(Init(n), OrphanEvents(k)) == Some(Orphaned(n, k))
    ensures forall e <- OrphanEvents(k) :: e.Act? && e.action in CANCELLED_STOP
  {
    hide StepCall;
    if k == 0 {
      assert Init(n).calls == Orphaned(n, 0).calls;
    } else {
      OrphansPileUp(n, k - 1);
      var s := Orphaned(n, k - 1);
      forall j | 0 <= j < |CANCELLED_STOP|
        ensures StepAlone(OrphanPath(s.free)[j], CANCELLED_STOP[j]) == Some(OrphanPath(s.free)[j + 1])
      {
        if j < 5 {
          OrphanStarts(s.free, j);
        } else {
          OrphanEnds(s.free, j);
        }
      }
      ScriptRuns(s, k - 1, OrphanPath(s.free), CANCELLED_STOP);
      assert s.calls[k - 1 := ORPHAN] == Orphaned(n, k).calls;
      RunAppend(Init(n), OrphanEvents(k - 1), Script(k - 1, CANCELLED_STOP));
    }
  }

  lemma {:induction false} RunAppend(s: System, front: seq<Event>, back: seq<Event>)
    requires Run(s, front).Some?
    ensures Run(s, front + back) == Run(Run(s, front).value, back)
    decreases |front|
  {
    hide Step;
    if front == [] {
      assert front + back == back;
    } else {
      assert (front + back)[1..] == front[1..] + back;
      RunAppend(Step(s, front[0]).value, front[1..], back);
    }
  }

  lemma {:induction false} AllOrphansLive(calls: seq<Call>)
    requires forall i :: 0 <= i < |calls| ==> calls[i] == ORPHAN
    ensures Live(calls) == |calls|
  {
    if calls != [] {
      AllOrphansLive(calls[1..]);
    }
  }

  /**
   Without `finalAwaited` nothing bounds the live children: cancelling the await
   of the final stop returns the permit at once, for as many calls as there are,
   even though every stop that runs does reap.
   */
  lemma CancelledStopUnbounded(n: nat)
    ensures exists events: seq<Event>, s: System ::
      Reaches(Hypotheses(true, true, false), n, events, s) && Live(s.calls) == n && s.free == MAX_CONCURRENT
  {
    OrphansPileUp(n, n);
    AllOrphansLive(Orphaned(n, n).calls);
    var events, s := OrphanEvents(n), Orphaned(n, n);
    assert Reaches(Hypotheses(true, true, false), n, events, s);
    assert Live(s.calls) == n && s.free == MAX_CONCURRENT;
  }
}
