/**
 Concurrent MTop requests over one shared token, with recovery from token
 errors and issued challenges.

 A caller runs `request` once; its steps are cut at every await that can
 suspend. Locks are taken and released inside steps. What comes back from the
 network or the browser is an arbitrary input of the step that receives it.
 */
module Mtop {
  import opened Basics
  import opened Token

  /** Where a finished bootstrap resumes: before the first, second or third send. */
  datatype Next = First | Second | Third

  datatype Pc =
    | Begin
    | BootWait(next: Next)
    | BootFlight(next: Next, captured: nat)
    | Flight(round: Next, captured: nat, signedWith: string)
    | SolveWait(observed: nat)
    | SolveFlight(observed: nat, captured: nat)
    | WarmWait(seen: nat)
    | WarmFlight(captured: nat)
    | Finished

  /** `first` is the generation the first send was signed under. */
  datatype Caller = Caller(pc: Pc, sends: nat, recoveries: nat, first: nat)

  const NEW_CALLER := Caller(Begin, 0, 0, 0)

  datatype Shared = Shared(
    tok: TokenState,
    recoveryGeneration: nat,
    solved: seq<nat>,            // the generation each successful solve had observed
    bootLock: Option<nat>, solveLock: Option<nat>, warmLock: Option<nat>,
    clock: real,
    hasSolver: bool)

  datatype System = System(shared: Shared, callers: seq<Caller>)

  /** A parsed answer: what its `ret` text contains and whether it names a usable challenge. */
  datatype Answer = Answer(tokenError: bool, blocked: bool, challenge: bool)

  /** `jar` is what the cookie jar answers when the step reads it. */
  datatype Input =
    | Start
    | BootAcquire
    | BootReply(jar: Option<string>)
    | Reply(jar: Option<string>, answer: Answer)
    | SolveAcquire(jar: Option<string>)
    | SolveReply(success: bool, jar: Option<string>)
    | WarmAcquire(jar: Option<string>)
    | WarmReply(primed: bool, jar: Option<string>)    // a browser error counts as not primed
    | Abort                                           // an exception, deadline or cancellation at an await

  function Init(n: nat, hasSolver: bool): System {
    System(Shared(NO_TOKEN, 0, [], None, None, None, 0.0, hasSolver), seq(n, _ => NEW_CALLER))
  }

  // ---- stretches of code shared by several steps ------------------------------

  function Send(s: Shared, c: Caller, round: Next): (Shared, Caller) {
    (s, c.(pc := Flight(round, s.tok.generation, s.tok.token), sends := c.sends + 1,
           first := if round == First then s.tok.generation else c.first))
  }

  /** After `_bootstrap_token` returns. */
  function Resume(s: Shared, c: Caller, next: Next): (Shared, Caller) {
    if next == Third && Expired(s.tok, s.clock) then (s, c.(pc := Finished)) else Send(s, c, next)
  }

  /** After a recovery that counts as solved: sign only with a token the jar still carries. */
  function AfterRecovery(s: Shared, c: Caller, jar: Option<string>): (Shared, Caller) {
    var lost := !Expired(s.tok, s.clock) && ParseCookie(jar) != Some(s.tok.token);
    var s1 := if lost then s.(tok := ClearIfCurrent(s.tok, s.tok.generation)) else s;
    if Expired(s1.tok, s1.clock) then (s1, c.(pc := BootWait(Third))) else Send(s1, c, Third)
  }

  function AfterReply(s: Shared, c: Caller, round: Next, captured: nat, a: Answer): (Shared, Caller) {
    if round == First && a.tokenError then
      (s.(tok := ClearIfCurrent(s.tok, captured)), c.(pc := BootWait(Second)))
    else if round != Third && a.blocked && a.challenge then
      (s, c.(pc := SolveWait(s.recoveryGeneration)))
    else if round != Third && a.blocked && s.hasSolver then
      (s, c.(pc := WarmWait(captured)))
    else
      (s, c.(pc := Finished))
  }

  function Release(s: Shared, pc: Pc): Shared {
    match pc
    case BootFlight(_, _) => s.(bootLock := None)
    case SolveFlight(_, _) => s.(solveLock := None)
    case WarmFlight(_) => s.(warmLock := None)
    case _ => s
  }

  // ---- the steps -----------------------------------------------------------------

  function StepCaller(s: Shared, i: nat, c: Caller, input: Input): Option<(Shared, Caller)> {
    match (c.pc, input)
    case (Begin, Start) =>
      Some(if Expired(s.tok, s.clock) then (s, c.(pc := BootWait(First))) else Send(s, c, First))
    case (BootWait(next), BootAcquire) =>
      if s.bootLock.Some? then None
      else if !Expired(s.tok, s.clock) then Some(Resume(s, c, next))
      else Some((s.(bootLock := Some(i)), c.(pc := BootFlight(next, s.tok.generation))))
    case (BootFlight(next, captured), BootReply(jar)) =>
      var s1 := s.(tok := Import(s.tok, captured, jar, s.clock), bootLock := None);
      Some(Resume(s1, c, next))
    case (Flight(round, captured, _), Reply(jar, a)) =>
      var s1 := s.(tok := Import(s.tok, captured, jar, s.clock));
      Some(AfterReply(s1, c, round, captured, a))
    case (SolveWait(observed), SolveAcquire(jar)) =>
      if s.solveLock.Some? then None
      else if s.recoveryGeneration != observed then Some(AfterRecovery(s, c, jar))
      else Some((s.(solveLock := Some(i)),
                 c.(pc := SolveFlight(observed, s.tok.generation), recoveries := c.recoveries + 1)))
    case (SolveFlight(observed, captured), SolveReply(success, jar)) =>
      var s1 := s.(solveLock := None);
      if !success then Some((s1, c.(pc := Finished)))
      else
        var s2 := s1.(tok := Import(s1.tok, captured, jar, s1.clock),
                      recoveryGeneration := s1.recoveryGeneration + 1, solved := s1.solved + [observed]);
        Some(AfterRecovery(s2, c, jar))
    case (WarmWait(seen), WarmAcquire(jar)) =>
      if s.warmLock.Some? then None
      else if s.tok.generation != seen then Some(AfterRecovery(s, c, jar))
      else Some((s.(warmLock := Some(i)), c.(pc := WarmFlight(s.tok.generation), recoveries := c.recoveries + 1)))
    case (WarmFlight(captured), WarmReply(primed, jar)) =>
      var s1 := s.(warmLock := None);
      if s1.tok.generation != captured then Some(AfterRecovery(s1, c, jar))
      else if !primed || ParseCookie(jar).None? then Some((s1, c.(pc := Finished)))
      else Some(AfterRecovery(s1.(tok := Import(s1.tok, captured, jar, s1.clock)), c, jar))
    case (pc, Abort) =>
      if pc.Begin? || pc.Finished? then None else Some((Release(s, pc), c.(pc := Finished)))
    case _ => None
  }

  datatype Event = Event(caller: nat, now: real, input: Input)

  function Step(s: System, e: Event): Option<System> {
    if e.caller >= |s.callers| || e.now < s.shared.clock then None
    else
      match StepCaller(s.shared.(clock := e.now), e.caller, s.callers[e.caller], e.input)
      case None => None
      case Some((shared, c)) => Some(System(shared, s.callers[e.caller := c]))
  }

  function Run(s: System, events: seq<Event>): Option<System>
    decreases |events|
  {
    if events == [] then Some(s)
    else
      match Step(s, events[0])
      case None => None
      case Some(t) => Run(t, events[1..])
  }

  // ---- the invariant -------------------------------------------------------------

  /** What a caller has spent by the time it is here. */
  predicate Budget(c: Caller) {
    match c.pc
    case Begin | BootWait(First) | BootFlight(First, _) => c.sends == 0 && c.recoveries == 0
    case Flight(First, _, _) | BootWait(Second) | BootFlight(Second, _) => c.sends == 1 && c.recoveries == 0
    case Flight(Second, _, _) => c.sends == 2 && c.recoveries == 0
    case SolveWait(_) | WarmWait(_) => c.sends <= 2 && c.recoveries == 0
    case SolveFlight(_, _) | WarmFlight(_) | BootWait(Third) | BootFlight(Third, _) => c.sends <= 2 && c.recoveries <= 1
    case Flight(Third, _, _) | Finished => c.sends <= 3 && c.recoveries <= 1
  }

  /** A caller's locks and captured values agree with the shared state. */
  predicate Fits(s: Shared, i: nat, c: Caller) {
    && (s.bootLock == Some(i) <==> c.pc.BootFlight?)
    && (s.solveLock == Some(i) <==> c.pc.SolveFlight?)
    && (s.warmLock == Some(i) <==> c.pc.WarmFlight?)
    && (c.pc.SolveFlight? ==> c.pc.observed == s.recoveryGeneration)
    && (c.pc.SolveWait? ==> c.pc.observed <= s.recoveryGeneration)
    && (c.pc.Flight? ==> c.pc.captured <= s.tok.generation)
    && (c.pc.Flight? && c.pc.round == First ==> c.first == c.pc.captured)
    && (c.pc.Flight? && c.pc.round == Second ==> c.first < c.pc.captured)
    && (c.pc.BootWait? && c.pc.next == Second ==> c.first < s.tok.generation)
    && (c.pc.BootFlight? && c.pc.next == Second ==> c.first < s.tok.generation)
    && (c.pc.Flight? && c.pc.captured == s.tok.generation ==> c.pc.signedWith == s.tok.token)
  }

  predicate SharedInv(s: Shared, n: nat) {
    && Coherent(s.tok)
    && |s.solved| == s.recoveryGeneration
    && (forall k | 0 <= k < |s.solved| :: s.solved[k] == k)
    && (s.bootLock.Some? ==> s.bootLock.value < n)
    && (s.solveLock.Some? ==> s.solveLock.value < n)
    && (s.warmLock.Some? ==> s.warmLock.value < n)
  }

  ghost predicate Inv(s: System) {
    && SharedInv(s.shared, |s.callers|)
    && forall i | 0 <= i < |s.callers| :: Budget(s.callers[i]) && Fits(s.shared, i, s.callers[i])
  }

  /** The token state may only stay, or change under a larger generation. */
  predicate Advances(a: TokenState, b: TokenState) {
    a.generation <= b.generation && (a.generation == b.generation ==> a == b)
  }

  /** What one caller's step keeps, seen from that caller. */
  ghost predicate GoodStep(s: Shared, i: nat, c: Caller, next: (Shared, Caller)) {
    var (t, d) := next;
    && Advances(s.tok, t.tok) && Coherent(t.tok)
    && s.clock == t.clock && s.hasSolver == t.hasSolver
    && s.recoveryGeneration <= t.recoveryGeneration
    && (t.recoveryGeneration != s.recoveryGeneration ==> s.solveLock == Some(i))
    && |t.solved| == t.recoveryGeneration && (forall k | 0 <= k < |t.solved| :: t.solved[k] == k)
    && Budget(d) && Fits(t, i, d)
    && (t.bootLock == s.bootLock || (t.bootLock == None && s.bootLock == Some(i)) || (s.bootLock == None && t.bootLock == Some(i)))
    && (t.solveLock == s.solveLock || (t.solveLock == None && s.solveLock == Some(i)) || (s.solveLock == None && t.solveLock == Some(i)))
    && (t.warmLock == s.warmLock || (t.warmLock == None && s.warmLock == Some(i)) || (s.warmLock == None && t.warmLock == Some(i)))
  }

  lemma TokenOperationsAdvance(t: TokenState, captured: nat, jar: Option<string>, now: real)
    requires Coherent(t)
    ensures Advances(t, Import(t, captured, jar, now)) && Coherent(Import(t, captured, jar, now))
    ensures Advances(t, ClearIfCurrent(t, captured)) && Coherent(ClearIfCurrent(t, captured))
  {
  }

  lemma BootStepIsGood(s: Shared, n: nat, i: nat, c: Caller, input: Input)
    requires SharedInv(s, n) && i < n && Budget(c) && Fits(s, i, c) && StepCaller(s, i, c, input).Some?
    requires c.pc.Begin? || c.pc.BootWait? || c.pc.BootFlight?
    ensures GoodStep(s, i, c, StepCaller(s, i, c, input).value)
  {
    hide ParseCookie;
    if c.pc.BootFlight? && input.BootReply? {
      TokenOperationsAdvance(s.tok, c.pc.captured, input.jar, s.clock);
    }
  }

  lemma FlightStepIsGood(s: Shared, n: nat, i: nat, c: Caller, input: Input)
    requires SharedInv(s, n) && i < n && Budget(c) && Fits(s, i, c) && StepCaller(s, i, c, input).Some?
    requires c.pc.Flight?
    ensures GoodStep(s, i, c, StepCaller(s, i, c, input).value)
  {
    hide ParseCookie, SetCookie;
    if input.Reply? {
      var captured, jar := c.pc.captured, input.jar;
      TokenOperationsAdvance(s.tok, captured, jar, s.clock);
      TokenOperationsAdvance(Import(s.tok, captured, jar, s.clock), captured, jar, s.clock);
    }
  }

  /** A recovery that counts as solved touches nothing but the token, and moves on to the third send. */
  ghost predicate Recovered(s: Shared, c: Caller, next: (Shared, Caller)) {
    var (t, d) := next;
    && t == s.(tok := t.tok) && Advances(s.tok, t.tok) && Coherent(t.tok)
    && (d == c.(pc := BootWait(Third)) || d == Send(t, c, Third).1)
  }

  lemma RecoveryMovesOn(s: Shared, c: Caller, jar: Option<string>)
    requires Coherent(s.tok)
    ensures Recovered(s, c, AfterRecovery(s, c, jar))
  {
  }

  lemma SolveStepIsGood(s: Shared, n: nat, i: nat, c: Caller, input: Input)
    requires SharedInv(s, n) && i < n && Budget(c) && Fits(s, i, c) && StepCaller(s, i, c, input).Some?
    requires c.pc.SolveWait? || c.pc.SolveFlight?
    ensures GoodStep(s, i, c, StepCaller(s, i, c, input).value)
  {
    hide ParseCookie, Import, AfterRecovery;
    if input.SolveAcquire? {
      RecoveryMovesOn(s, c, input.jar);
    } else if input.SolveReply? && c.pc.SolveFlight? {
      var tok := Import(s.tok, c.pc.captured, input.jar, s.clock);
      TokenOperationsAdvance(s.tok, c.pc.captured, input.jar, s.clock);
      RecoveryMovesOn(s.(solveLock := None, tok := tok, recoveryGeneration := s.recoveryGeneration + 1,
                         solved := s.solved + [c.pc.observed]), c, input.jar);
    }
  }

  lemma WarmStepIsGood(s: Shared, n: nat, i: nat, c: Caller, input: Input)
    requires SharedInv(s, n) && i < n && Budget(c) && Fits(s, i, c) && StepCaller(s, i, c, input).Some?
    requires c.pc.WarmWait? || c.pc.WarmFlight?
    ensures GoodStep(s, i, c, StepCaller(s, i, c, input).value)
  {
    hide ParseCookie, Import, AfterRecovery;
    if input.WarmAcquire? {
      RecoveryMovesOn(s, c, input.jar);
    } else if input.WarmReply? && c.pc.WarmFlight? {
      var s1 := s.(warmLock := None);
      TokenOperationsAdvance(s.tok, c.pc.captured, input.jar, s.clock);
      RecoveryMovesOn(s1, c, input.jar);
      RecoveryMovesOn(s1.(tok := Import(s.tok, c.pc.captured, input.jar, s.clock)), c, input.jar);
    }
  }

  lemma CallerStepIsGood(s: Shared, n: nat, i: nat, c: Caller, input: Input)
    requires SharedInv(s, n) && i < n && Budget(c) && Fits(s, i, c) && StepCaller(s, i, c, input).Some?
    ensures GoodStep(s, i, c, StepCaller(s, i, c, input).value)
  {
    FinishedStays(s, i, c, input);
    hide StepCaller, GoodStep, SharedInv, Budget, Fits;
    match c.pc
    case SolveWait(_) | SolveFlight(_, _) => SolveStepIsGood(s, n, i, c, input);
    case WarmWait(_) | WarmFlight(_) => WarmStepIsGood(s, n, i, c, input);
    case Flight(_, _, _) => FlightStepIsGood(s, n, i, c, input);
    case _ => BootStepIsGood(s, n, i, c, input);
  }

  lemma StepKeeps(s: System, e: Event)
    requires Inv(s) && Step(s, e).Some?
    ensures Inv(Step(s, e).value) && Advances(s.shared.tok, Step(s, e).value.shared.tok)
  {
    var shared, c := s.shared.(clock := e.now), s.callers[e.caller];
    hide StepCaller, Budget;
    CallerStepIsGood(shared, |s.callers|, e.caller, c, e.input);
    var t := Step(s, e).value;
    forall j | 0 <= j < |t.callers|
      ensures Budget(t.callers[j]) && Fits(t.shared, j, t.callers[j])
    {
      if j != e.caller {
        OthersFit(shared, t.shared, e.caller, c, t.callers[e.caller], j, s.callers[j]);
      }
    }
  }

  lemma FinishedStays(s: Shared, i: nat, c: Caller, input: Input)
    requires StepCaller(s, i, c, input).Some?
    ensures !c.pc.Finished?
  {
  }

  lemma OthersFit(s: Shared, t: Shared, i: nat, c: Caller, d: Caller, j: nat, other: Caller)
    requires i != j && GoodStep(s, i, c, (t, d)) && Fits(s, i, c) && Fits(s, j, other)
    ensures Fits(t, j, other)
  {
    hide Budget;
  }

  lemma {:induction false} RunKeeps(s: System, events: seq<Event>)
    requires Inv(s) && Run(s, events).Some?
    ensures Inv(Run(s, events).value) && Advances(s.shared.tok, Run(s, events).value.shared.tok)
    decreases |events|
  {
    hide Step, Inv;
    if events != [] {
      StepKeeps(s, events[0]);
      RunKeeps(Step(s, events[0]).value, events[1..]);
    }
  }

  lemma InitHolds(n: nat, hasSolver: bool)
    ensures Inv(Init(n, hasSolver))
  {
  }

  // ---- results, over every interleaving of any number of requests ------------------

  ghost predicate Reaches(n: nat, hasSolver: bool, events: seq<Event>, s: System) {
    Run(Init(n, hasSolver), events) == Some(s)
  }

  lemma ReachableInv(n: nat, hasSolver: bool, events: seq<Event>, s: System)
    requires Reaches(n, hasSolver, events, s)
    ensures Inv(s)
  {
    InitHolds(n, hasSolver);
    RunKeeps(Init(n, hasSolver), events);
  }

  /**
   The generation tells token states apart: it never falls, and two moments of
   one run with the same generation have the same token, cookie and time.
   */
  lemma GenerationIdentifiesToken(n: nat, hasSolver: bool, events: seq<Event>, s: System, more: seq<Event>, t: System)
    requires Reaches(n, hasSolver, events, s) && Run(s, more) == Some(t)
    ensures s.shared.tok.generation <= t.shared.tok.generation
    ensures s.shared.tok.generation == t.shared.tok.generation ==> s.shared.tok == t.shared.tok
  {
    ReachableInv(n, hasSolver, events, s);
    RunKeeps(s, more);
  }

  /** The generation an operation in flight began with. */
  function Captured(pc: Pc): Option<nat> {
    match pc
    case BootFlight(_, g) => Some(g)
    case Flight(_, g, _) => Some(g)
    case SolveFlight(_, g) => Some(g)
    case WarmFlight(g) => Some(g)
    case _ => None
  }

  function JarOf(input: Input): Option<string> {
    match input
    case BootReply(jar) => jar
    case Reply(jar, _) => jar
    case SolveAcquire(jar) => jar
    case SolveReply(_, jar) => jar
    case WarmAcquire(jar) => jar
    case WarmReply(_, jar) => jar
    case _ => None
  }

  /** A step that ends a recovery as solved without having the token under its own generation. */
  predicate Recovers(s: Shared, c: Caller, input: Input) {
    match (c.pc, input)
    case (SolveWait(observed), SolveAcquire(_)) => s.recoveryGeneration != observed
    case (SolveFlight(_, _), SolveReply(success, _)) => success
    case (WarmWait(seen), WarmAcquire(_)) => s.tok.generation != seen
    case (WarmFlight(captured), WarmReply(_, _)) => s.tok.generation != captured
    case _ => false
  }

  lemma StaleStepExactly(s: Shared, i: nat, c: Caller, input: Input)
    requires StepCaller(s, i, c, input).Some? && Captured(c.pc) != Some(s.tok.generation)
    ensures var t := StepCaller(s, i, c, input).value.0.tok;
      && (t != s.tok <==>
            Recovers(s, c, input) && !Expired(s.tok, s.clock) && ParseCookie(JarOf(input)) != Some(s.tok.token))
      && (t != s.tok ==> t == ClearIfCurrent(s.tok, s.tok.generation))
  {
    hide ParseCookie, SetCookie;
  }

  /**
   When a step whose operation did not begin under the current generation changes
   the token state: it never installs anything, and it clears the state exactly
   when it ends a recovery as solved while the token is unexpired and the cookie
   jar does not carry it. An ordinary late answer is inert.
   */
  lemma StaleStepClearsExactly(s: System, e: Event)
    requires Step(s, e).Some? && Captured(s.callers[e.caller].pc) != Some(s.shared.tok.generation)
    ensures var before, after := s.shared.tok, Step(s, e).value.shared.tok;
      && (after != before <==>
            && Recovers(s.shared, s.callers[e.caller], e.input)
            && !Expired(before, e.now) && ParseCookie(JarOf(e.input)) != Some(before.token))
      && (after != before ==> after == ClearIfCurrent(before, before.generation))
  {
    hide StepCaller;
    StaleStepExactly(s.shared.(clock := e.now), e.caller, s.callers[e.caller], e.input);
  }

  // ---- a late solve that clears a newer token ----------------------------------

  const STAMP := "1000000000"
  const COOKIE_A := "a" + "_" + STAMP
  const COOKIE_B := "b" + "_" + STAMP

  lemma CookiesParse()
    ensures ParseCookie(Some(COOKIE_A)) == Some("a") && ParseCookie(Some(COOKIE_B)) == Some("b")
  {
    CookieParses("a", STAMP);
    CookieParses("b", STAMP);
  }

  /** Two callers, one of them solving a challenge it met under the first token. */
  const LATE_SOLVE: seq<Event> := [
    Event(0, 1.0, Start), Event(0, 1.0, BootAcquire), Event(0, 1.0, BootReply(Some(COOKIE_A))),
    Event(1, 1.0, Start), Event(0, 1.0, Reply(None, Answer(false, true, true))), Event(0, 1.0, SolveAcquire(None)),
    Event(1, 1.0, Reply(Some(COOKIE_B), Answer(false, false, false)))]

  const TOKEN_A := TokenState("a", Some(COOKIE_A), 1.0, 1)
  const TOKEN_B := TokenState("b", Some(COOKIE_B), 1.0, 2)

  function Pair(tok: TokenState, boot: Option<nat>, solve: Option<nat>, clock: real, a: Caller, b: Caller): System {
    System(Shared(tok, 0, [], boot, solve, None, clock, true), [a, b])
  }

  const SENT_A := Flight(First, 1, "a")

  const LATE_PATH: seq<System> := [
    Pair(NO_TOKEN, None, None, 0.0, NEW_CALLER, NEW_CALLER),
    Pair(NO_TOKEN, None, None, 1.0, Caller(BootWait(First), 0, 0, 0), NEW_CALLER),
    Pair(NO_TOKEN, Some(0), None, 1.0, Caller(BootFlight(First, 0), 0, 0, 0), NEW_CALLER),
    Pair(TOKEN_A, None, None, 1.0, Caller(SENT_A, 1, 0, 1), NEW_CALLER),
    Pair(TOKEN_A, None, None, 1.0, Caller(SENT_A, 1, 0, 1), Caller(SENT_A, 1, 0, 1)),
    Pair(TOKEN_A, None, None, 1.0, Caller(SolveWait(0), 1, 0, 1), Caller(SENT_A, 1, 0, 1)),
    Pair(TOKEN_A, None, Some(0), 1.0, Caller(SolveFlight(0, 1), 1, 1, 1), Caller(SENT_A, 1, 0, 1)),
    Pair(TOKEN_B, None, Some(0), 1.0, Caller(SolveFlight(0, 1), 1, 1, 1), Caller(Finished, 1, 0, 1))]

  lemma LateStepsEarly(k: nat)
    requires k < 3
    ensures Step(LATE_PATH[k], LATE_SOLVE[k]) == Some(LATE_PATH[k + 1])
  {
    CookiesParse();
    hide ParseCookie;
    var i := LATE_SOLVE[k].caller;
    assert LATE_PATH[k].callers[i := LATE_PATH[k + 1].callers[i]] == LATE_PATH[k + 1].callers;
  }

  lemma LateStepsLater(k: nat)
    requires 3 <= k < 7
    ensures Step(LATE_PATH[k], LATE_SOLVE[k]) == Some(LATE_PATH[k + 1])
  {
    CookiesParse();
    assert ParseCookie(None) == None;
    hide ParseCookie;
    var i := LATE_SOLVE[k].caller;
    assert LATE_PATH[k].callers[i := LATE_PATH[k + 1].callers[i]] == LATE_PATH[k + 1].callers;
  }

  lemma {:induction false} PathRuns(path: seq<System>, events: seq<Event>)
    requires |path| == |events| + 1
    requires forall k | 0 <= k < |events| :: Step(path[k], events[k]) == Some(path[k + 1])
    ensures Run(path[0], events) == Some(path[|events|])
    decreases |events|
  {
    hide Step;
    if events != [] {
      assert Step(path[0], events[0]) == Some(path[1]);
      PathRuns(path[1..], events[1..]);
    }
  }

  /**
   The exception is real, and a late answer triggers it: a solve that began under
   generation 1 clears the token another request installed as generation 2.
   */
  lemma LateSolveClearsNewer()
    ensures exists events, s, e :: (
      && Reaches(2, true, events, s) && Step(s, e).Some?
      && Captured(s.callers[e.caller].pc) == Some(1) && s.shared.tok.generation == 2
      && s.shared.tok.token != "" && Step(s, e).value.shared.tok.token == "")
  {
    var s, e := LATE_PATH[7], Event(0, 1.0, SolveReply(true, None));
    assert Init(2, true).callers == LATE_PATH[0].callers;
    forall k | 0 <= k < |LATE_SOLVE|
      ensures Step(LATE_PATH[k], LATE_SOLVE[k]) == Some(LATE_PATH[k + 1])
    {
      if k < 3 {
        LateStepsEarly(k);
      } else {
        LateStepsLater(k);
      }
    }
    PathRuns(LATE_PATH, LATE_SOLVE);
    assert Reaches(2, true, LATE_SOLVE, s);
    LateSolveClears(s, e);
  }

  lemma LateSolveClears(s: System, e: Event)
    requires s == LATE_PATH[7] && e == Event(0, 1.0, SolveReply(true, None))
    ensures Step(s, e).Some? && Step(s, e).value.shared.tok.token == ""
  {
    assert ParseCookie(None) == None;
    hide ParseCookie;
  }

  // ---- what an answer that is not late does ------------------------------------

  /** Something arrives that may carry a cookie worth keeping. */
  predicate Delivers(input: Input) {
    match input
    case BootReply(_) | Reply(_, _) => true
    case SolveReply(success, _) => success
    case WarmReply(primed, _) => primed
    case _ => false
  }

  /** The first answer refuses the token it was signed with. */
  predicate Refuses(c: Caller, input: Input) {
    c.pc.Flight? && c.pc.round == First && input.Reply? && input.answer.tokenError
  }

  lemma CurrentStepExactly(s: Shared, i: nat, c: Caller, input: Input)
    requires StepCaller(s, i, c, input).Some? && Captured(c.pc) == Some(s.tok.generation)
    ensures var t := StepCaller(s, i, c, input).value.0.tok; var minted := ParseCookie(JarOf(input));
      && (Delivers(input) && minted.Some? ==>
            if Refuses(c, input) && s.tok.token == minted.value && s.tok.cookie == JarOf(input) then t.token == ""
            else t.token == minted.value && t.cookie == JarOf(input))
      && (!Delivers(input) || minted.None? ==>
            (t != s.tok <==> Refuses(c, input) || (input.SolveReply? && input.success && !Expired(s.tok, s.clock))))
      && (t != s.tok ==> t.generation > s.tok.generation && t.time == if t.token == "" then 0.0 else s.clock)
  {
    assert ParseCookie(None) == None;
    hide ParseCookie;
  }

  /**
   An answer to an operation begun under the current generation is acted on: the
   cookie it delivers is installed, unless it is the very one just refused; and
   without a cookie the token is dropped exactly when it was refused, or when a
   solve left an unexpired one behind that the jar no longer carries.
   */
  lemma CurrentAnswerExactly(s: System, e: Event)
    requires Step(s, e).Some? && Captured(s.callers[e.caller].pc) == Some(s.shared.tok.generation)
    ensures var before, after, c := s.shared.tok, Step(s, e).value.shared.tok, s.callers[e.caller];
      var minted := ParseCookie(JarOf(e.input));
      && (Delivers(e.input) && minted.Some? ==>
            if Refuses(c, e.input) && before.token == minted.value && before.cookie == JarOf(e.input) then after.token == ""
            else after.token == minted.value && after.cookie == JarOf(e.input))
      && (!Delivers(e.input) || minted.None? ==>
            (after != before <==> Refuses(c, e.input) || (e.input.SolveReply? && e.input.success && !Expired(before, e.now))))
      && (after != before ==> after.generation > before.generation && after.time == if after.token == "" then 0.0 else e.now)
  {
    hide StepCaller, ParseCookie;
    CurrentStepExactly(s.shared.(clock := e.now), e.caller, s.callers[e.caller], e.input);
  }

  /** A refused token is gone: the generation has moved past the one it was sent under, and a bootstrap comes next. */
  lemma RefusedTokenIsDropped(n: nat, hasSolver: bool, events: seq<Event>, s: System, e: Event)
    requires Reaches(n, hasSolver, events, s) && Step(s, e).Some? && Refuses(s.callers[e.caller], e.input)
    ensures var t := Step(s, e).value;
      t.shared.tok.generation > s.callers[e.caller].pc.captured && t.callers[e.caller].pc == BootWait(Second)
  {
    hide ParseCookie;
    ReachableInv(n, hasSolver, events, s);
    var c, tok := s.callers[e.caller], s.shared.tok;
    assert Fits(s.shared, e.caller, c);
    TokenOperationsAdvance(tok, c.pc.captured, e.input.jar, e.now);
    TokenOperationsAdvance(Import(tok, c.pc.captured, e.input.jar, e.now), c.pc.captured, None, e.now);
  }

  /** So the send that follows a refusal is signed under a newer generation than the first. */
  lemma SecondSendIsNewer(n: nat, hasSolver: bool, events: seq<Event>, s: System, c: Caller)
    requires Reaches(n, hasSolver, events, s) && c in s.callers && c.pc.Flight? && c.pc.round == Second
    ensures c.first < c.pc.captured <= s.shared.tok.generation && c.sends == 2
  {
    ReachableInv(n, hasSolver, events, s);
    var i :| 0 <= i < |s.callers| && s.callers[i] == c;
    assert Fits(s.shared, i, c) && Budget(c);
  }

  /** What a blocked answer is, before the third send. */
  predicate Blocked(c: Caller, input: Input) {
    c.pc.Flight? && c.pc.round != Third && input.Reply? && input.answer.blocked && !Refuses(c, input)
  }

  /** When a step ends its request: aborted, answered, out of means, or unable to recover. */
  predicate GivesUp(s: Shared, c: Caller, input: Input) {
    match (c.pc, input)
    case (_, Abort) => true
    case (Flight(_, _, _), Reply(_, answer)) =>
      !Refuses(c, input) && (Blocked(c, input) ==> !answer.challenge && !s.hasSolver)
    case (SolveFlight(_, _), SolveReply(success, _)) => !success
    case (WarmFlight(captured), WarmReply(primed, jar)) =>
      s.tok.generation == captured && (!primed || ParseCookie(jar).None?)
    case (BootFlight(Third, captured), BootReply(jar)) => Expired(Import(s.tok, captured, jar, s.clock), s.clock)
    case _ => false
  }

  lemma EndsExactly(s: Shared, i: nat, c: Caller, input: Input)
    requires StepCaller(s, i, c, input).Some? && !c.pc.Finished?
    ensures StepCaller(s, i, c, input).value.1.pc.Finished? <==> GivesUp(s, c, input)
  {
    hide ParseCookie, Import, ClearIfCurrent, Expired;
  }

  /**
   A request ends exactly when it must: a blocked answer leads to a recovery, by the
   issued challenge under the recovery generation seen now, or by the solver.
   */
  lemma RequestEndsExactly(s: System, e: Event)
    requires Step(s, e).Some? && !s.callers[e.caller].pc.Finished?
    ensures var c, d := s.callers[e.caller], Step(s, e).value.callers[e.caller];
      && (d.pc.Finished? <==> GivesUp(s.shared.(clock := e.now), c, e.input))
      && (Blocked(c, e.input) && e.input.answer.challenge ==> d.pc == SolveWait(s.shared.recoveryGeneration))
      && (Blocked(c, e.input) && !e.input.answer.challenge && s.shared.hasSolver ==> d.pc == WarmWait(c.pc.captured))
  {
    EndsExactly(s.shared.(clock := e.now), e.caller, s.callers[e.caller], e.input);
    hide GivesUp, ParseCookie, Import, ClearIfCurrent, Expired;
  }

  /** At every await an exception, deadline or cancellation may end the request, and it leaves no lock behind. */
  lemma AbortLeavesNoLock(n: nat, hasSolver: bool, events: seq<Event>, s: System, e: Event)
    requires Reaches(n, hasSolver, events, s) && e.input.Abort? && e.now >= s.shared.clock && e.caller < |s.callers|
    requires !s.callers[e.caller].pc.Begin? && !s.callers[e.caller].pc.Finished?
    ensures Step(s, e).Some?
    ensures var t := Step(s, e).value.shared;
      t.tok == s.shared.tok && t.bootLock != Some(e.caller) && t.solveLock != Some(e.caller) && t.warmLock != Some(e.caller)
  {
    ReachableInv(n, hasSolver, events, s);
    assert Fits(s.shared, e.caller, s.callers[e.caller]);
  }

  /** No token, or one older than an hour. */
  predicate Stale(t: TokenState, now: real) {
    t.token == "" || now > t.time + 3600.0
  }

  lemma BeginsHonestly(s: Shared, i: nat, c: Caller, input: Input)
    requires StepCaller(s, i, c, input).Some?
    ensures var (t, d) := StepCaller(s, i, c, input).value;
      Captured(d.pc).Some? && c.pc != d.pc ==>
        && Captured(d.pc) == Some(t.tok.generation)
        && (d.pc.Flight? ==> d.pc.signedWith == t.tok.token && d.sends == c.sends + 1)
        && (d.pc.BootFlight? ==> Stale(s.tok, s.clock))
        && (d.pc.Flight? && (c.pc.Begin? || c.pc.BootWait?) ==> !Stale(s.tok, s.clock))
        && (d.pc.SolveFlight? ==> c.pc.SolveWait? && c.pc.observed == s.recoveryGeneration)
        && (d.pc.WarmFlight? ==> c.pc == WarmWait(s.tok.generation))
  {
    hide ParseCookie, Import, ClearIfCurrent;
  }

  /**
   Every operation begins honestly: it captures the generation of that moment and
   signs with its token; a bootstrap is sent only for an expired token, a send
   that skips it only under an unexpired one; a challenge is solved, or the origin
   primed, only while nobody else has.
   */
  lemma OperationsBeginHonestly(s: System, e: Event)
    requires Step(s, e).Some?
    ensures var t, c := Step(s, e).value, s.callers[e.caller];
      var d := t.callers[e.caller];
      Captured(d.pc).Some? && c.pc != d.pc ==>
        && Captured(d.pc) == Some(t.shared.tok.generation)
        && (d.pc.Flight? ==> d.pc.signedWith == t.shared.tok.token && d.sends == c.sends + 1)
        && (d.pc.BootFlight? ==> Stale(s.shared.tok, e.now))
        && (d.pc.Flight? && (c.pc.Begin? || c.pc.BootWait?) ==> !Stale(s.shared.tok, e.now))
        && (d.pc.SolveFlight? ==> c.pc.SolveWait? && c.pc.observed == s.shared.recoveryGeneration)
        && (d.pc.WarmFlight? ==> c.pc == WarmWait(s.shared.tok.generation))
  {
    hide StepCaller;
    BeginsHonestly(s.shared.(clock := e.now), e.caller, s.callers[e.caller], e.input);
  }

  /** For each observed recovery generation exactly one solve has succeeded, and one browser solves at a time. */
  lemma RecoveryIsShared(n: nat, hasSolver: bool, events: seq<Event>, s: System)
    requires Reaches(n, hasSolver, events, s)
    ensures forall j, k | 0 <= j < k < |s.shared.solved| :: s.shared.solved[j] != s.shared.solved[k]
    ensures forall g | 0 <= g < s.shared.recoveryGeneration :: g in s.shared.solved
    ensures forall i, j | 0 <= i < j < |s.callers| ::
              !(s.callers[i].pc.SolveFlight? && s.callers[j].pc.SolveFlight?)
              && !(s.callers[i].pc.BootFlight? && s.callers[j].pc.BootFlight?)
  {
    ReachableInv(n, hasSolver, events, s);
    forall g | 0 <= g < s.shared.recoveryGeneration
      ensures g in s.shared.solved
    {
      assert s.shared.solved[g] == g;
    }
    assert forall i | 0 <= i < |s.callers| :: Fits(s.shared, i, s.callers[i]);
  }

  /** One request makes at most three signed sends and starts at most one recovery. */
  lemma RequestIsBounded(n: nat, hasSolver: bool, events: seq<Event>, s: System, c: Caller)
    requires Reaches(n, hasSolver, events, s) && c in s.callers
    ensures c.sends <= 3 && c.recoveries <= 1
  {
    ReachableInv(n, hasSolver, events, s);
    assert Budget(c);
  }

  /** In flight for the third time means: signed with the current token, present and unexpired. */
  ghost predicate SignedIfThird(next: (Shared, Caller)) {
    var (t, d) := next;
    d.pc.Flight? && d.pc.round == Third ==>
      && d.pc.captured == t.tok.generation && d.pc.signedWith == t.tok.token != ""
      && t.clock - t.tok.time <= 3600.0
  }

  lemma ThirdSendsAreSigned(s: Shared, c: Caller, next: Next, jar: Option<string>)
    ensures SignedIfThird(Resume(s, c, next)) && SignedIfThird(AfterRecovery(s, c, jar))
  {
    hide ParseCookie, ClearIfCurrent;
  }

  lemma BootRetryIsSigned(s: Shared, i: nat, c: Caller, input: Input)
    requires StepCaller(s, i, c, input).Some? && (c.pc.BootWait? || c.pc.BootFlight?)
    ensures SignedIfThird(StepCaller(s, i, c, input).value)
  {
    hide Import, Resume, Expired;
    ThirdSendsAreSigned(s, c, c.pc.next, None);
    if c.pc.BootFlight? && input.BootReply? {
      var s1 := s.(tok := Import(s.tok, c.pc.captured, input.jar, s.clock), bootLock := None);
      ThirdSendsAreSigned(s1, c, c.pc.next, None);
    }
  }

  lemma SolveRetryIsSigned(s: Shared, i: nat, c: Caller, input: Input)
    requires StepCaller(s, i, c, input).Some? && (c.pc.SolveWait? || c.pc.SolveFlight?)
    ensures SignedIfThird(StepCaller(s, i, c, input).value)
  {
    hide ParseCookie, Import, AfterRecovery, Expired;
    var jar := JarOf(input);
    ThirdSendsAreSigned(s, c, First, jar);
    if c.pc.SolveFlight? && input.SolveReply? {
      var s1 := s.(tok := Import(s.tok, c.pc.captured, jar, s.clock), solveLock := None,
                   recoveryGeneration := s.recoveryGeneration + 1, solved := s.solved + [c.pc.observed]);
      ThirdSendsAreSigned(s1, c, First, jar);
    }
  }

  lemma WarmRetryIsSigned(s: Shared, i: nat, c: Caller, input: Input)
    requires StepCaller(s, i, c, input).Some? && (c.pc.WarmWait? || c.pc.WarmFlight?)
    ensures SignedIfThird(StepCaller(s, i, c, input).value)
  {
    hide ParseCookie, Import, AfterRecovery, Expired;
    var jar := JarOf(input);
    ThirdSendsAreSigned(s, c, First, jar);
    if c.pc.WarmFlight? && input.WarmReply? {
      var s1 := s.(warmLock := None);
      ThirdSendsAreSigned(s1, c, First, jar);
      ThirdSendsAreSigned(s1.(tok := Import(s1.tok, c.pc.captured, jar, s1.clock)), c, First, jar);
    }
  }

  lemma FlightEndsElsewhere(s: Shared, i: nat, c: Caller, input: Input)
    requires StepCaller(s, i, c, input).Some? && (c.pc.Begin? || c.pc.Flight?)
    ensures SignedIfThird(StepCaller(s, i, c, input).value)
  {
    hide Import, ClearIfCurrent;
  }

  /** The send after a recovery is signed with the current token, present and unexpired. */
  lemma RetryIsSigned(s: System, e: Event)
    requires Step(s, e).Some?
    ensures var t := Step(s, e).value;
      SignedIfThird((t.shared, t.callers[e.caller]))
  {
    hide StepCaller, SignedIfThird;
    var shared, c := s.shared.(clock := e.now), s.callers[e.caller];
    match c.pc
    case BootWait(_) | BootFlight(_, _) => BootRetryIsSigned(shared, e.caller, c, e.input);
    case SolveWait(_) | SolveFlight(_, _) => SolveRetryIsSigned(shared, e.caller, c, e.input);
    case WarmWait(_) | WarmFlight(_) => WarmRetryIsSigned(shared, e.caller, c, e.input);
    case Begin | Flight(_, _, _) => FlightEndsElsewhere(shared, e.caller, c, e.input);
    case Finished => FinishedStays(shared, e.caller, c, e.input);
  }

  // ---- every request ends -------------------------------------------------------------

  function PcRank(pc: Pc): nat {
    match pc
    case Begin => 12
    case BootWait(First) => 11
    case BootFlight(First, _) => 10
    case Flight(First, _, _) => 9
    case BootWait(Second) => 8
    case BootFlight(Second, _) => 7
    case Flight(Second, _, _) => 6
    case SolveWait(_) | WarmWait(_) => 5
    case SolveFlight(_, _) | WarmFlight(_) => 4
    case BootWait(Third) => 3
    case BootFlight(Third, _) => 2
    case Flight(Third, _, _) => 1
    case Finished => 0
  }

  function TotalRank(callers: seq<Caller>): nat {
    if callers == [] then 0 else PcRank(callers[0].pc) + TotalRank(callers[1..])
  }

  lemma RankDrops(s: Shared, i: nat, c: Caller, input: Input)
    requires StepCaller(s, i, c, input).Some?
    ensures PcRank(StepCaller(s, i, c, input).value.1.pc) < PcRank(c.pc)
  {
    hide ParseCookie, Import, ClearIfCurrent;
  }

  lemma {:induction false} TotalRankAfterUpdate(callers: seq<Caller>, i: nat, d: Caller)
    requires i < |callers|
    ensures TotalRank(callers[i := d]) == TotalRank(callers) - PcRank(callers[i].pc) + PcRank(d.pc)
  {
    if i == 0 {
      assert callers[0 := d][1..] == callers[1..];
    } else {
      assert callers[i := d][1..] == callers[1..][i - 1 := d];
      TotalRankAfterUpdate(callers[1..], i - 1, d);
    }
  }

  lemma {:induction false} RankBoundsRun(s: System, events: seq<Event>)
    requires Run(s, events).Some?
    ensures |events| + TotalRank(Run(s, events).value.callers) <= TotalRank(s.callers)
    decreases |events|
  {
    hide StepCaller, PcRank;
    if events != [] {
      var e := events[0];
      var shared, c := s.shared.(clock := e.now), s.callers[e.caller];
      RankDrops(shared, e.caller, c, e.input);
      TotalRankAfterUpdate(s.callers, e.caller, StepCaller(shared, e.caller, c, e.input).value.1);
      RankBoundsRun(Step(s, e).value, events[1..]);
    }
  }

  lemma {:induction false} FreshRank(callers: seq<Caller>)
    requires forall i :: 0 <= i < |callers| ==> callers[i] == NEW_CALLER
    ensures TotalRank(callers) == 12 * |callers|
  {
    if callers != [] {
      FreshRank(callers[1..]);
    }
  }

  /** An answer that arrives, or a lock that is free. */
  function NextInput(pc: Pc): Input {
    match pc
    case Begin | Finished => Start
    case BootWait(_) => BootAcquire
    case BootFlight(_, _) => BootReply(None)
    case Flight(_, _, _) => Reply(None, Answer(false, false, false))
    case SolveWait(_) => SolveAcquire(None)
    case SolveFlight(_, _) => SolveReply(false, None)
    case WarmWait(_) => WarmAcquire(None)
    case WarmFlight(_) => WarmReply(false, None)
  }

  function Waits(s: Shared, pc: Pc): Option<nat> {
    match pc
    case BootWait(_) => s.bootLock
    case SolveWait(_) => s.solveLock
    case WarmWait(_) => s.warmLock
    case _ => None
  }

  lemma UnblockedMoves(s: Shared, i: nat, c: Caller)
    requires !c.pc.Finished? && Waits(s, c.pc).None?
    ensures StepCaller(s, i, c, NextInput(c.pc)).Some?
  {
    hide ParseCookie, Import, ClearIfCurrent, AfterRecovery;
  }

  /**
   Recovery cannot hang on its locks: a schedule of n requests has at most 12 n
   steps, and while some request is unfinished some request can move without
   being aborted, because every lock holder has an answer outstanding.
   */
  lemma RequestsEnd(n: nat, hasSolver: bool, events: seq<Event>, s: System)
    requires Reaches(n, hasSolver, events, s)
    ensures |events| <= 12 * n
    ensures (exists i :: 0 <= i < |s.callers| && !s.callers[i].pc.Finished?) ==>
              exists i: nat, input :: Step(s, Event(i, s.shared.clock, input)).Some? && !input.Abort?
  {
    FreshRank(Init(n, hasSolver).callers);
    RankBoundsRun(Init(n, hasSolver), events);
    ReachableInv(n, hasSolver, events, s);
    if i :| 0 <= i < |s.callers| && !s.callers[i].pc.Finished? {
      var j := match Waits(s.shared, s.callers[i].pc) case None => i case Some(holder) => holder;
      assert Fits(s.shared, j, s.callers[j]);
      MoverExists(s, j);
    }
  }

  lemma MoverExists(s: System, j: nat)
    requires j < |s.callers| && !s.callers[j].pc.Finished? && Waits(s.shared, s.callers[j].pc).None?
    ensures exists i: nat, input :: Step(s, Event(i, s.shared.clock, input)).Some? && !input.Abort?
  {
    hide StepCaller;
    var c := s.callers[j];
    UnblockedMoves(s.shared.(clock := s.shared.clock), j, c);
    var input := NextInput(c.pc);
    assert Step(s, Event(j, s.shared.clock, input)).Some? && !input.Abort?;
  }
}
