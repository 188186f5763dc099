/**
 Minimum spacing between requests to one domain, shared by any number of
 waiters, with server-requested backoff.

 Time is real, positive and never moves backwards. A waiter holds the lock from
 its first step until it passes or is cancelled; between two looks at the clock
 it sleeps, and `defer` may be called meanwhile.
 */
module RateLimiter {
  import opened Basics

  datatype Params = Params(minInterval: real, jitterMin: real, jitterMax: real)

  /** The waiter inside the lock: who, and its spacing target. */
  datatype Turn = Turn(waiter: nat, spacing: real)

  datatype State = State(lastTime: real, backoffUntil: real, turn: Option<Turn>, clock: real, passes: seq<real>)

  const START := State(0.0, 0.0, None, 0.0, [])

  datatype Event =
    | Defer(at: real, seconds: real)
    | Enter(at: real, waiter: nat, extra: real, jitter: real)   // takes the lock, fixes its spacing target
    | Look(at: real, until: real)                               // rechecks at `at`; a pass is stamped at `until`
    | Cancel(at: real)                                          // the waiter inside the lock gives up

  function Max(a: real, b: real): real {
    if a >= b then a else b
  }

  function Target(s: State): real
    requires s.turn.Some?
  {
    Max(s.turn.value.spacing, s.backoffUntil)
  }

  function Spacing(p: Params, lastTime: real, extra: real, jitter: real): real {
    if lastTime > 0.0 then lastTime + p.minInterval + extra + jitter else 0.0
  }

  /** What an event may be, given the parameters: delays are not negative, jitter is in its range. */
  predicate Legal(p: Params, s: State, e: Event) {
    && s.clock <= e.at && 0.0 < e.at
    && match e
       case Enter(_, _, extra, jitter) => s.turn.None? && 0.0 <= extra && p.jitterMin <= jitter <= p.jitterMax
       case Look(at, until) => s.turn.Some? && at <= until
       case Cancel(_) => s.turn.Some?
       case Defer(_, _) => true
  }

  function Step(p: Params, s: State, e: Event): State
    requires Legal(p, s, e)
  {
    match e
    case Defer(at, seconds) => s.(clock := at, backoffUntil := Max(s.backoffUntil, at + Max(0.0, seconds)))
    case Enter(at, w, extra, jitter) => s.(clock := at, turn := Some(Turn(w, Spacing(p, s.lastTime, extra, jitter))))
    case Look(at, until) =>
      if Target(s) <= at then s.(clock := until, turn := None, lastTime := until, passes := s.passes + [until])
      else s.(clock := at)
    case Cancel(at) => s.(clock := at, turn := None)
  }

  /** The limiter object, its coroutine cut at its awaits. */
  class DomainRateLimiter {
    const params: Params
    var lastTime: real
    var backoffUntil: real
    var turn: Option<Turn>
    ghost var clock: real
    ghost var passes: seq<real>

    ghost function View(): State
      reads this
    {
      State(lastTime, backoffUntil, turn, clock, passes)
    }

    constructor (params: Params)
      ensures View() == START && this.params == params
    {
      this.params := params;
      lastTime, backoffUntil, turn := 0.0, 0.0, None;
      clock, passes := 0.0, [];
    }

    method DeferFor(at: real, seconds: real)
      requires Legal(params, View(), Defer(at, seconds))
      modifies this
      ensures View() == Step(params, old(View()), Defer(at, seconds))
    {
      backoffUntil := Max(backoffUntil, at + Max(0.0, seconds));
      clock := at;
    }

    /** `async with self._lock` entered: the spacing target is computed once. */
    method BeginWait(at: real, waiter: nat, extra: real, jitter: real)
      requires Legal(params, View(), Enter(at, waiter, extra, jitter))
      modifies this
      ensures View() == Step(params, old(View()), Enter(at, waiter, extra, jitter))
    {
      var spacing := 0.0;
      if lastTime > 0.0 {
        spacing := lastTime + params.minInterval + extra + jitter;
      }
      turn := Some(Turn(waiter, spacing));
      clock := at;
    }

    /** One turn of the recheck loop: pass, or say how long to sleep. */
    method Recheck(at: real, until: real) returns (passed: bool, sleep: real)
      requires Legal(params, View(), Look(at, until))
      modifies this
      ensures View() == Step(params, old(View()), Look(at, until))
      ensures passed <==> Target(old(View())) <= at
      ensures !passed ==> sleep > 0.0 && at + sleep == Target(old(View()))
    {
      var target := Max(turn.value.spacing, backoffUntil);
      if target <= at {
        lastTime, turn := until, None;
        clock, passes := until, passes + [until];
        return true, 0.0;
      }
      clock := at;
      return false, target - at;
    }

    /** A waiter cancelled inside the lock leaves it to the next one. */
    method Abandon(at: real)
      requires Legal(params, View(), Cancel(at))
      modifies this
      ensures View() == Step(params, old(View()), Cancel(at))
    {
      turn := None;
      clock := at;
    }
  }

  // ---- whole traces ----------------------------------------------------------

  /** A schedule in which every event is legal when it happens. */
  ghost predicate Trace(p: Params, s: State, events: seq<Event>)
    decreases |events|
  {
    events == [] || (Legal(p, s, events[0]) && Trace(p, Step(p, s, events[0]), events[1..]))
  }

  ghost function Run(p: Params, s: State, events: seq<Event>): State
    requires Trace(p, s, events)
    decreases |events|
  {
    if events == [] then s else Run(p, Step(p, s, events[0]), events[1..])
  }

  /** The guaranteed gap between two passes. */
  function Gap(p: Params): real {
    p.minInterval + p.jitterMin
  }

  predicate Spaced(passes: seq<real>, gap: real) {
    forall i | 0 < i < |passes| :: passes[i - 1] + gap <= passes[i]
  }

  predicate Inv(p: Params, s: State) {
    && 0.0 <= s.clock
    && Spaced(s.passes, Gap(p))
    && (s.passes == [] ==> s.lastTime == 0.0)
    && (s.passes != [] ==> 0.0 < s.lastTime == s.passes[|s.passes| - 1] && s.lastTime <= s.clock)
    && (s.turn.Some? && s.passes != [] ==> s.lastTime + Gap(p) <= s.turn.value.spacing)
  }

  lemma StepKeeps(p: Params, s: State, e: Event)
    requires Inv(p, s) && Legal(p, s, e)
    ensures Inv(p, Step(p, s, e))
  {
  }

  lemma {:induction false} RunKeeps(p: Params, s: State, events: seq<Event>)
    requires Inv(p, s) && Trace(p, s, events)
    ensures Inv(p, Run(p, s, events))
    decreases |events|
  {
    if events != [] {
      StepKeeps(p, s, events[0]);
      RunKeeps(p, Step(p, s, events[0]), events[1..]);
    }
  }

  lemma {:induction false} FarApart(passes: seq<real>, gap: real, i: nat, d: nat)
    requires Spaced(passes, gap) && i + d < |passes|
    ensures passes[i] + d as real * gap <= passes[i + d]
  {
    if d > 0 {
      FarApart(passes, gap, i, d - 1);
      assert passes[i + d - 1] + gap <= passes[i + d];
      assert d as real * gap == (d - 1) as real * gap + gap;
    }
  }

  lemma ProductsCompare(a: real, b: real, g: real)
    requires g > 0.0 && a > b
    ensures a * g > b * g
  {
  }

  lemma CountBound(n: nat, gap: real, width: real)
    requires gap > 0.0 && 0.0 <= width && (n > 0 ==> (n - 1) as real * gap <= width)
    ensures n <= 1 + (width / gap).Floor
  {
    var quotient := width / gap;
    assert quotient * gap == width;
    if n > 0 && (n - 1) as real > quotient {
      ProductsCompare((n - 1) as real, quotient, gap);
    }
  }

  predicate InWindow(t: real, start: real, width: real) {
    start <= t <= start + width
  }

  function CountIn(passes: seq<real>, start: real, width: real): nat {
    if passes == [] then 0
    else
      var n := |passes| - 1;
      CountIn(passes[..n], start, width) + (if InWindow(passes[n], start, width) then 1 else 0)
  }

  /** The passes of a window are consecutive. */
  lemma {:induction false} WindowIsStretch(passes: seq<real>, gap: real, start: real, width: real) returns (i: nat)
    requires gap > 0.0 && Spaced(passes, gap)
    ensures var n := CountIn(passes, start, width);
      i + n <= |passes| && forall k | 0 <= k < |passes| :: InWindow(passes[k], start, width) <==> i <= k < i + n
  {
    i := 0;
    if passes != [] {
      var front, last := passes[..|passes| - 1], |passes| - 1;
      i := WindowIsStretch(front, gap, start, width);
      var n := CountIn(front, start, width);
      assert forall k | 0 <= k < last :: front[k] == passes[k];
      if InWindow(passes[last], start, width) {
        if n == 0 {
          i := last;
        } else if i + n < last {
          InOrder(passes, gap, i + n - 1, i + n);
          InOrder(passes, gap, i + n, last);
        }
      }
    }
  }

  lemma InOrder(passes: seq<real>, gap: real, i: nat, j: nat)
    requires gap > 0.0 && Spaced(passes, gap) && i < j < |passes|
    ensures passes[i] < passes[j]
  {
    FarApart(passes, gap, i, j - i);
    assert (j - i) as real * gap >= gap;
  }

  lemma StretchFits(passes: seq<real>, gap: real, start: real, width: real)
    requires gap > 0.0 && Spaced(passes, gap)
    ensures var n := CountIn(passes, start, width); n > 0 ==> (n - 1) as real * gap <= width
  {
    hide CountIn;
    var n := CountIn(passes, start, width);
    var i := WindowIsStretch(passes, gap, start, width);
    if n > 0 {
      FarApart(passes, gap, i, n - 1);
      assert InWindow(passes[i], start, width) && InWindow(passes[i + n - 1], start, width);
    }
  }

  /**
   Spacing over whole traces: any window of length `width` contains at most
   1 + floor(width / (min_interval + jitter_min)) passes, whatever waiters,
   extra delays, cancellations and backoffs the trace holds.
   */
  lemma WindowBound(p: Params, events: seq<Event>, start: real, width: real)
    requires Gap(p) > 0.0 && 0.0 <= width && Trace(p, START, events)
    ensures CountIn(Run(p, START, events).passes, start, width) <= 1 + (width / Gap(p)).Floor
  {
    hide Run, Trace, Step, CountIn, Gap;
    RunKeeps(p, START, events);
    StretchFits(Run(p, START, events).passes, Gap(p), start, width);
    CountBound(CountIn(Run(p, START, events).passes, start, width), Gap(p), width);
  }

  /** While the backoff lies at or behind `limit`, no new pass is stamped before it. */
  lemma {:induction false} BackoffHolds(p: Params, s: State, events: seq<Event>, limit: real)
    requires Trace(p, s, events) && limit <= s.backoffUntil
    ensures var t := Run(p, s, events);
      |s.passes| <= |t.passes| && t.passes[..|s.passes|] == s.passes
      && forall k | |s.passes| <= k < |t.passes| :: limit <= t.passes[k]
    decreases |events|
  {
    if events != [] {
      var next := Step(p, s, events[0]);
      BackoffHolds(p, next, events[1..], limit);
      assert next.passes[..|s.passes|] == s.passes;
    }
  }

  /**
   After `defer(seconds)` at time `at`, nobody passes before `at + seconds` --
   not even a waiter that was already asleep, with a target long computed.
   */
  lemma DeferredWaitersWait(p: Params, s: State, at: real, seconds: real, events: seq<Event>)
    requires Legal(p, s, Defer(at, seconds)) && Trace(p, Step(p, s, Defer(at, seconds)), events)
    ensures var t := Run(p, Step(p, s, Defer(at, seconds)), events);
      forall k | |s.passes| <= k < |t.passes| :: at + seconds <= t.passes[k]
  {
    BackoffHolds(p, Step(p, s, Defer(at, seconds)), events, at + seconds);
  }

  // ---- nobody waits longer than told -----------------------------------------

  /**
   What happens during one waiter's turn when it looks no earlier than at `due`,
   the time its last look told it, and at most `late` after that. Others may
   defer meanwhile. The turn is over once it has passed.
   */
  ghost predicate Patient(p: Params, s: State, due: real, late: real, events: seq<Event>)
    decreases |events|
  {
    events == [] ||
    (s.turn.Some? && Legal(p, s, events[0]) &&
     match events[0]
     case Look(at, _) => due <= at <= due + late && Patient(p, Step(p, s, events[0]), Target(s), late, events[1..])
     case Defer(_, _) => Patient(p, Step(p, s, events[0]), due, late, events[1..])
     case _ => false)
  }

  lemma {:induction false} PatientIsTrace(p: Params, s: State, due: real, late: real, events: seq<Event>)
    requires Patient(p, s, due, late, events)
    ensures Trace(p, s, events)
    decreases |events|
  {
    if events != [] {
      PatientIsTrace(p, Step(p, s, events[0]), if events[0].Look? then Target(s) else due, late, events[1..]);
    }
  }

  function Looks(events: seq<Event>): nat {
    if events == [] then 0 else (if events[0].Look? then 1 else 0) + Looks(events[1..])
  }

  /** The calls of `defer` that moved the backoff. */
  ghost function Moves(p: Params, s: State, events: seq<Event>): nat
    requires Trace(p, s, events)
    decreases |events|
  {
    if events == [] then 0
    else
      var next := Step(p, s, events[0]);
      (if next.backoffUntil != s.backoffUntil then 1 else 0) + Moves(p, next, events[1..])
  }

  lemma {:induction false} LooksCounted(p: Params, s: State, due: real, late: real, events: seq<Event>)
    requires Patient(p, s, due, late, events) && s.turn.Some?
    ensures Trace(p, s, events)
    ensures Looks(events) <= Moves(p, s, events)
      + (if Run(p, s, events).turn.None? then 1 else 0) + (if Target(s) <= due then 0 else 1)
    decreases |events|
  {
    PatientIsTrace(p, s, due, late, events);
    if events != [] {
      var next := Step(p, s, events[0]);
      if next.turn.Some? {
        LooksCounted(p, next, if events[0].Look? then Target(s) else due, late, events[1..]);
      } else {
        assert events[1..] == [];
      }
    }
  }

  lemma {:induction false} LooksInTime(p: Params, s: State, entry: real, due: real, late: real, events: seq<Event>)
    requires Patient(p, s, due, late, events) && s.turn.Some? && due <= Max(entry, Target(s))
    ensures Trace(p, s, events)
    ensures Run(p, s, events).turn.None? ==>
      && events != [] && events[|events| - 1].Look?
      && events[|events| - 1].at <= Max(entry, Max(s.turn.value.spacing, Run(p, s, events).backoffUntil)) + late
    decreases |events|
  {
    PatientIsTrace(p, s, due, late, events);
    if events != [] {
      var next := Step(p, s, events[0]);
      if next.turn.Some? {
        LooksInTime(p, next, entry, if events[0].Look? then Target(s) else due, late, events[1..]);
        assert events[1..] != [] ==> events[1..][|events| - 2] == events[|events| - 1];
      } else {
        assert events[1..] == [];
      }
    }
  }

  /**
   Nobody waits longer than promised. A waiter that enters at `at` and looks
   whenever its sleep is over looks at most twice, and once more for each `defer`
   that moved the backoff in between; and it passes on a look no later than
   `late` after its entry, its spacing target and the backoff are all past.
   */
  lemma TurnIsShort(p: Params, s: State, enter: Event, late: real, events: seq<Event>)
    requires enter.Enter? && Legal(p, s, enter) && Patient(p, Step(p, s, enter), enter.at, late, events)
    ensures Trace(p, Step(p, s, enter), events)
    ensures Looks(events) <= 2 + Moves(p, Step(p, s, enter), events)
    ensures var end := Run(p, Step(p, s, enter), events);
      var spacing := if s.lastTime > 0.0 then s.lastTime + p.minInterval + enter.extra + enter.jitter else 0.0;
      end.turn.None? ==>
        && events != [] && events[|events| - 1].Look?
        && events[|events| - 1].at <= Max(enter.at, Max(spacing, end.backoffUntil)) + late
  {
    LooksCounted(p, Step(p, s, enter), enter.at, late, events);
    LooksInTime(p, Step(p, s, enter), enter.at, enter.at, late, events);
  }

  // ---- what a waiter asked for -------------------------------------------------

  /** Events of one turn: nobody else enters. */
  predicate OneTurn(events: seq<Event>) {
    forall e <- events :: !e.Enter?
  }

  lemma {:induction false} TurnPassesLate(p: Params, s: State, earliest: real, events: seq<Event>)
    requires Trace(p, s, events) && OneTurn(events) && (s.turn.Some? ==> earliest <= s.turn.value.spacing)
    ensures var t := Run(p, s, events);
      && |s.passes| <= |t.passes| <= |s.passes| + (if s.turn.Some? then 1 else 0)
      && t.passes[..|s.passes|] == s.passes
      && forall k | |s.passes| <= k < |t.passes| :: earliest <= t.passes[k]
    decreases |events|
  {
    if events != [] {
      var next := Step(p, s, events[0]);
      assert events[0] in events && forall e <- events[1..] :: e in events;
      TurnPassesLate(p, next, earliest, events[1..]);
      assert next.passes[..|s.passes|] == s.passes;
    }
  }

  /**
   The spacing a waiter asked for is honoured: behind an earlier pass it passes at most
   once in its turn, and no sooner than the base interval, its own extra delay and its
   jitter after that pass.
   */
  lemma ExtraDelayHonoured(p: Params, s: State, enter: Event, events: seq<Event>)
    requires Inv(p, s) && enter.Enter? && Legal(p, s, enter)
    requires Trace(p, Step(p, s, enter), events) && OneTurn(events)
    ensures var t := Run(p, Step(p, s, enter), events);
      && |s.passes| <= |t.passes| <= |s.passes| + 1
      && (s.passes != [] && |t.passes| > |s.passes| ==>
            t.passes[|s.passes|] >= s.passes[|s.passes| - 1] + p.minInterval + enter.extra + enter.jitter)
  {
    var next := Step(p, s, enter);
    TurnPassesLate(p, next, next.turn.value.spacing, events);
  }

  /** The backoff is the latest end of all deferrals, negative ones counting as none, and nothing later. */
  lemma {:induction false} BackoffIsLatest(p: Params, s: State, events: seq<Event>)
    requires Trace(p, s, events)
    ensures var until := Run(p, s, events).backoffUntil;
      && s.backoffUntil <= until
      && (forall e <- events :: e.Defer? ==> e.at + e.seconds <= until && e.at <= until)
      && (until == s.backoffUntil || exists e <- events ::
            e.Defer? && until == e.at + (if e.seconds < 0.0 then 0.0 else e.seconds))
    decreases |events|
  {
    if events != [] {
      BackoffIsLatest(p, Step(p, s, events[0]), events[1..]);
      assert events == [events[0]] + events[1..];
    }
  }

  /**
   The lock is free again behind a waiter that gave up or passed: the next may enter
   at once, and giving up leaves passes, last pass and backoff as they were.
   */
  lemma LockIsFreeAgain(p: Params, s: State, e: Event, next: Event)
    requires Legal(p, s, e) && (e.Cancel? || (e.Look? && Step(p, s, e).passes != s.passes))
    requires next.Enter? && 0.0 < next.at && Step(p, s, e).clock <= next.at
    requires 0.0 <= next.extra && p.jitterMin <= next.jitter <= p.jitterMax
    ensures Legal(p, Step(p, s, e), next)
    ensures var t := Step(p, s, e);
      e.Cancel? ==> t.passes == s.passes && t.lastTime == s.lastTime && t.backoffUntil == s.backoffUntil
  {
  }
}
