/** What holds in every reachable state of a job monitor, whatever the order of its events. */
module JobMonitorRuns {
  import opened Wrappers
  import opened Arithmetic
  import opened JobMonitorSpec

  /** Started, unsettled, not aborted and still the current search. */
  predicate Live(s: State) {
    s.started && !Stopped(s)
  }

  predicate TimerConsistent(s: State) {
    s.recoveryTimer.Some? ==>
      && (s.recoveryTimerImmediate <==> s.recoveryTimer == Some(0))
      && (s.recoveryTimerImmediate || s.recoveryTimer.value in REST_RECOVERY_DELAYS_MS)
  }

  predicate RequestConsistent(s: State) {
    && s.outstandingGets == (if s.recoveryRequest == InFlight then 1 else 0)
    && (s.recoveryCycle == Fetching || s.resyncWaiting > 0 ==> s.recoveryRequest != NoRequest)
  }

  predicate SettledConsistent(s: State) {
    && s.resolved + s.rejected == (if s.settled then 1 else 0)
    && (s.settled ==> s.recoveryTimer.None?)
    && (s.recoveryCycle == Ending(false) ==> s.settled)
    && (s.aborted && s.abortHandled ==> s.settled)
  }

  /** The inductive invariant of the monitor. */
  predicate Inv(s: State) {
    && s.recoveryAttempt < |REST_RECOVERY_DELAYS_MS|
    && TimerConsistent(s)
    && RequestConsistent(s)
    && SettledConsistent(s)
    && (s.immediateRecoveryPending ==> s.recoveryCycle != Idle)
    && (!s.started ==> s.recoveryCycle == Idle)
    // Never two of them, and in a live monitor never none.
    && !(s.recoveryTimer.Some? && s.recoveryCycle != Idle)
    && (Live(s) ==> s.recoveryTimer.Some? || s.recoveryCycle != Idle)
  }

  lemma FetchKeepsInv(s: State)
    requires Inv(s)
    ensures Inv(FetchAuthoritative(s))
  {
    var t := FetchAuthoritative(s);
    assert TimerConsistent(t);
    assert RequestConsistent(t);
    assert SettledConsistent(t);
  }

  lemma TimerKeepsInv(s: State)
    requires Inv(s) && s.started && s.recoveryTimer.Some?
    ensures Inv(RecoverFromRest(s.(recoveryTimer := None, recoveryTimerImmediate := false)))
  {
  }

  lemma ClearKeepsInv(s: State)
    requires Inv(s) && Enabled(s, RequestClears)
    ensures Inv(Next(s, RequestClears))
  {
  }

  lemma EndKeepsInv(s: State, scheduleNext: bool)
    requires Inv(s) && s.recoveryCycle != Idle && (scheduleNext || s.settled)
    ensures Inv(EndBody(s, scheduleNext))
  {
  }

  lemma BumpKeepsInv(s: State)
    requires Inv(s)
    ensures Inv(BumpAttempt(s)) && BumpAttempt(s).recoveryCycle == s.recoveryCycle
  {
  }

  lemma SettleKeepsInv(s: State, resolves: bool)
    requires Inv(s)
    ensures Inv(Settle(s, resolves)) && Settle(s, resolves).settled
    ensures Settle(s, resolves).recoveryCycle == s.recoveryCycle
  {
  }

  lemma BodyKeepsInv(s: State, outcome: Outcome)
    requires Inv(s) && s.recoveryCycle == Answered(outcome)
    ensures Inv(CycleBody(s, outcome))
  {
    hide Settle, BumpAttempt, EndBody;
    var t := NoteAnswer(s, outcome);
    assert Inv(t);
    BumpKeepsInv(t);
    EndKeepsInv(BumpAttempt(t), true);
    SettleKeepsInv(t, outcome.Job?);
    EndKeepsInv(Settle(t, outcome.Job?), false);
  }

  lemma FinallyKeepsInv(s: State, scheduleNext: bool)
    requires Inv(s) && s.recoveryCycle == Ending(scheduleNext)
    ensures Inv(CycleFinally(s, scheduleNext))
  {
  }

  lemma WatchdogKeepsInv(s: State)
    requires Inv(s)
    ensures Inv(RefreshWatchdog(s))
  {
  }

  lemma AbortKeepsInv(s: State)
    requires Inv(s) && Enabled(s, Abort)
    ensures Inv(Next(s, Abort))
  {
  }

  lemma StartKeepsInv(s: State, socket: bool)
    requires Inv(s) && !s.started
    ensures Inv(Next(s, Start(socket)))
  {
  }

  lemma UrgentKeepsInv(s: State)
    requires Inv(s)
    ensures Inv(ScheduleRecovery(s, Some(0))) && Inv(ScheduleRecovery(s.(sequenceGapPending := true), Some(0)))
  {
  }

  lemma ResyncKeepsInv(s: State)
    requires Inv(s) && !s.settled
    ensures Inv(Next(s, ResyncRequired))
  {
    hide FetchAuthoritative;
    FetchKeepsInv(s);
  }

  lemma AnswerKeepsInv(s: State, outcome: Outcome)
    requires Inv(s) && Enabled(s, GetReturns(outcome))
    ensures Inv(Next(s, GetReturns(outcome)))
  {
  }

  lemma ResumeKeepsInv(s: State, i: nat)
    requires Inv(s) && Enabled(s, ResyncResumes(i))
    ensures Inv(Next(s, ResyncResumes(i)))
  {
    hide RefreshWatchdog, Settle;
    var t := s.(resyncAnswered := s.resyncAnswered[..i] + s.resyncAnswered[i + 1..]);
    assert Inv(t);
    WatchdogKeepsInv(t);
    SettleKeepsInv(t, true);
  }

  lemma SupersedeKeepsInv(s: State)
    requires Inv(s) && Enabled(s, Supersede)
    ensures Inv(Next(s, Supersede))
  {
  }

  lemma StepKeepsInv(s: State, e: Event)
    requires Inv(s) && Enabled(s, e)
    ensures Inv(Next(s, e))
  {
    hide Inv, ScheduleRecovery, FetchAuthoritative, RecoverFromRest, RefreshWatchdog;
    hide CycleBody, CycleFinally, ResyncBody, Settle;
    match e {
      case Start(socket) =>
        StartKeepsInv(s, socket);
      case Urgent =>
        UrgentKeepsInv(s);
      case Watchdog =>
        WatchdogKeepsInv(s);
      case SequenceGap =>
        UrgentKeepsInv(s);
      case ResyncRequired =>
        ResyncKeepsInv(s);
      case TimerFires =>
        TimerKeepsInv(s);
      case GetReturns(outcome) =>
        AnswerKeepsInv(s, outcome);
      case RequestClears =>
        ClearKeepsInv(s);
      case CycleResumes =>
        BodyKeepsInv(s, s.recoveryCycle.outcome);
      case CycleEnds =>
        FinallyKeepsInv(s, s.recoveryCycle.scheduleNext);
      case ResyncResumes(i) =>
        ResumeKeepsInv(s, i);
      case Abort =>
        AbortKeepsInv(s);
      case Supersede =>
        SupersedeKeepsInv(s);
    }
  }

  /**
    * Every reachable state keeps the invariant: a live monitor has exactly one of an armed
    * timer and a running cycle, at most one GET is outstanding, the promise settles at most
    * once, a settled monitor has no timer, and the backoff index stays in the table.
    */
  lemma {:induction false} ReachableInv(s: State, events: seq<Event>)
    requires Inv(s)
    ensures Inv(Run(s, events))
    decreases |events|
  {
    hide Inv, Enabled, Next;
    if events != [] {
      if Enabled(s, events[0]) {
        StepKeepsInv(s, events[0]);
        ReachableInv(Next(s, events[0]), events[1..]);
      } else {
        ReachableInv(s, events[1..]);
      }
    }
  }

  lemma ExactlyOneRecovery(aborted: bool, current: bool, events: seq<Event>)
    ensures var s := Run(Initial(aborted, current), events);
      && Inv(s)
      && (Live(s) ==> (s.recoveryTimer.Some? <==> s.recoveryCycle == Idle))
      && s.outstandingGets <= 1
      && s.resolved + s.rejected <= 1
      && s.recoveryAttempt < |REST_RECOVERY_DELAYS_MS|
  {
    InitialInv(aborted, current);
    ReachableInv(Initial(aborted, current), events);
  }

  /** The same one outcome, and nothing armed. */
  predicate SettledAs(s: State, resolved: nat, rejected: nat) {
    s.settled && s.recoveryTimer.None? && s.resolved == resolved && s.rejected == rejected
  }

  lemma SettledStep(s: State, e: Event, resolved: nat, rejected: nat)
    requires SettledAs(s, resolved, rejected) && Enabled(s, e)
    ensures SettledAs(Next(s, e), resolved, rejected)
  {
  }

  /** Once settled, a monitor keeps its one outcome, and nothing is ever armed again. */
  lemma {:induction false} SettledForever(s: State, events: seq<Event>, resolved: nat, rejected: nat)
    requires SettledAs(s, resolved, rejected)
    ensures SettledAs(Run(s, events), resolved, rejected)
    decreases |events|
  {
    hide SettledAs, Enabled, Next;
    if events != [] {
      if Enabled(s, events[0]) {
        SettledStep(s, events[0], resolved, rejected);
        SettledForever(Next(s, events[0]), events[1..], resolved, rejected);
      } else {
        SettledForever(s, events[1..], resolved, rejected);
      }
    }
  }

  /**
    * An unsettled monitor is silent only when its search was superseded, or when its signal had
    * already been aborted before the listener was added.
    */
  lemma SilentOnlyWhenRevoked(aborted: bool, current: bool, events: seq<Event>)
    ensures var s := Run(Initial(aborted, current), events);
      s.started && !s.settled && s.recoveryTimer.None? && s.recoveryCycle == Idle
      ==> !s.current || (s.aborted && !s.abortHandled)
  {
    InitialInv(aborted, current);
    ReachableInv(Initial(aborted, current), events);
  }

  /** And so it is whenever a live search is superseded between a cycle's body and its `finally`. */
  lemma SupersededBeforeFinally(s: State)
    requires Inv(s) && Live(s) && s.recoveryCycle.Ending?
    ensures var t := Next(Next(s, Supersede), CycleEnds);
      t.started && !t.settled && t.recoveryTimer.None? && t.recoveryCycle == Idle
  {
  }

  /** A monitor whose signal was aborted before it started: only failures will ever answer it. */
  predicate Inert(s: State) {
    && s.aborted && !s.abortHandled && !s.settled
    && s.recoveryTimer.None? && s.recoveryCycle == Idle
    && (s.recoveryRequest.Returned? ==> !s.recoveryRequest.outcome.Job?)
    && forall i | 0 <= i < |s.resyncAnswered| :: !s.resyncAnswered[i].Job?
  }

  lemma InertStep(s: State, e: Event)
    requires Inert(s) && Enabled(s, e)
    ensures Inert(Next(s, e))
  {
  }

  /** Such a monitor never settles, socket or not: the abort listener was added too late to be called. */
  lemma {:induction false} AbortedBeforeStartNeverSettles(s: State, events: seq<Event>)
    requires Inert(s)
    ensures Inert(Run(s, events))
    decreases |events|
  {
    hide Inert, Enabled, Next;
    if events != [] {
      if Enabled(s, events[0]) {
        InertStep(s, events[0]);
      }
      AbortedBeforeStartNeverSettles(if Enabled(s, events[0]) then Next(s, events[0]) else s, events[1..]);
    }
  }

  // ---------- Urgent requests ----------

  /** An urgent request is still in force: its timer is armed, or a cycle will honour it. */
  predicate UrgentHeld(s: State) {
    || Stopped(s)
    || s.recoveryTimer == Some(0)
    || (s.recoveryCycle != Idle && s.immediateRecoveryPending)
  }

  predicate Urges(e: Event) {
    e.Urgent? || e.SequenceGap?
  }

  lemma UrgentRaises(s: State, e: Event)
    requires Inv(s) && Enabled(s, e) && Urges(e)
    ensures UrgentHeld(Next(s, e))
  {
  }

  lemma BodyKeepsUrgent(s: State, outcome: Outcome)
    requires Inv(s) && UrgentHeld(s) && s.recoveryCycle == Answered(outcome)
    ensures UrgentHeld(CycleBody(s, outcome))
  {
  }

  lemma FinallyKeepsUrgent(s: State, scheduleNext: bool)
    requires Inv(s) && UrgentHeld(s) && s.recoveryCycle == Ending(scheduleNext)
    ensures UrgentHeld(CycleFinally(s, scheduleNext))
  {
  }

  /** A socket event or a start keeps it, whatever it asks for. */
  lemma TrafficKeepsUrgent(s: State, e: Event)
    requires Inv(s) && UrgentHeld(s) && Enabled(s, e)
    requires e.Start? || e.Urgent? || e.Watchdog? || e.SequenceGap?
    ensures UrgentHeld(Next(s, e))
  {
  }

  lemma ResumeKeepsUrgent(s: State, i: nat)
    requires Inv(s) && UrgentHeld(s) && Enabled(s, ResyncResumes(i))
    ensures UrgentHeld(Next(s, ResyncResumes(i)))
  {
  }

  /** Requests and their answers do not touch it. */
  lemma AnswersKeepUrgent(s: State, e: Event)
    requires Inv(s) && UrgentHeld(s) && Enabled(s, e)
    requires e.ResyncRequired? || e.GetReturns? || e.RequestClears? || e.Abort? || e.Supersede?
    ensures UrgentHeld(Next(s, e))
  {
  }

  lemma UrgentStep(s: State, e: Event)
    requires Inv(s) && UrgentHeld(s) && Enabled(s, e) && e != TimerFires
    ensures UrgentHeld(Next(s, e))
  {
    hide Inv, UrgentHeld, ScheduleRecovery, FetchAuthoritative, RecoverFromRest, RefreshWatchdog;
    hide CycleBody, CycleFinally, ResyncBody;
    match e {
      case CycleResumes =>
        BodyKeepsUrgent(s, s.recoveryCycle.outcome);
      case CycleEnds =>
        FinallyKeepsUrgent(s, s.recoveryCycle.scheduleNext);
      case ResyncResumes(i) =>
        ResumeKeepsUrgent(s, i);
      case Start(_) =>
        TrafficKeepsUrgent(s, e);
      case Urgent =>
        TrafficKeepsUrgent(s, e);
      case Watchdog =>
        TrafficKeepsUrgent(s, e);
      case SequenceGap =>
        TrafficKeepsUrgent(s, e);
      case _ =>
        AnswersKeepUrgent(s, e);
    }
  }

  /**
    * Whatever else happens, an urgent request stays in force until a timer fires and starts
    * the next cycle; ordinary traffic can neither drop it nor postpone it.
    */
  lemma {:induction false} UrgentNeverLost(s: State, events: seq<Event>)
    requires Inv(s) && UrgentHeld(s)
    requires TimerFires !in events
    ensures UrgentHeld(Run(s, events))
    decreases |events|
  {
    hide Inv, UrgentHeld, Enabled, Next;
    if events != [] {
      var e := events[0];
      if Enabled(s, e) {
        StepKeepsInv(s, e);
        UrgentStep(s, e);
        UrgentNeverLost(Next(s, e), events[1..]);
      } else {
        UrgentNeverLost(s, events[1..]);
      }
    }
  }

  lemma InitialInv(aborted: bool, current: bool)
    ensures Inv(Initial(aborted, current))
  {
  }

  /** The timer that ends the wait is the immediate one, and firing it starts a fresh cycle. */
  lemma HeldTimerIsImmediate(s: State)
    requires Inv(s) && UrgentHeld(s) && Live(s) && Enabled(s, TimerFires)
    ensures s.recoveryTimer == Some(0) && Next(s, TimerFires).recoveryCycle == Fetching
  {
  }

  /** From request to cycle: raised at any reachable state, still in force before the next cycle. */
  lemma UrgentReachesNextCycle(aborted: bool, current: bool, before: seq<Event>, e: Event, after: seq<Event>)
    requires Urges(e) && TimerFires !in after
    requires Enabled(Run(Initial(aborted, current), before), e)
    ensures var s := Run(Next(Run(Initial(aborted, current), before), e), after);
      && UrgentHeld(s)
      && (Live(s) && Enabled(s, TimerFires) ==>
            s.recoveryTimer == Some(0) && Next(s, TimerFires).recoveryCycle == Fetching)
  {
    hide Inv, UrgentHeld, Live, Enabled, Next, Run, Initial;
    var s := Run(Initial(aborted, current), before);
    InitialInv(aborted, current);
    ReachableInv(Initial(aborted, current), before);
    StepKeepsInv(s, e);
    UrgentRaises(s, e);
    UrgentNeverLost(Next(s, e), after);
    ReachableInv(Next(s, e), after);
    var t := Run(Next(s, e), after);
    if Live(t) && Enabled(t, TimerFires) {
      HeldTimerIsImmediate(t);
    }
  }

  // ---------- Progress ----------

  /** The event that moves a live monitor on, with a server that answers with a terminal job. */
  function Helpful(s: State): Event {
    match s.recoveryCycle
    case Idle => TimerFires
    case Fetching => if s.recoveryRequest == InFlight then GetReturns(Job(false)) else RequestClears
    case Answered(_) => CycleResumes
    case Ending(_) => CycleEnds
  }

  /** Helpful events left; an answer already on its way may cost one more cycle. */
  function Distance(s: State): nat {
    var answered := s.recoveryRequest.Returned?;
    match s.recoveryCycle
    case Idle => if answered then 9 else 4
    case Fetching =>
      if !answered then 3 else if s.recoveryRequest.outcome == Job(false) then 2 else 8
    case Answered(outcome) =>
      if outcome == Job(false) then 1 else if answered then 11 else 6
    case Ending(_) => if answered then 10 else 5
  }

  lemma HelpfulFinally(s: State)
    requires Inv(s) && Live(s) && s.recoveryCycle.Ending?
    ensures var t := Next(s, CycleEnds); Live(t) && Distance(t) < Distance(s)
  {
  }

  lemma HelpfulBody(s: State)
    requires Inv(s) && Live(s) && s.recoveryCycle.Answered?
    ensures var t := Next(s, CycleResumes); t.settled || (Live(t) && Distance(t) < Distance(s))
  {
  }

  lemma HelpfulStep(s: State)
    requires Inv(s) && Live(s)
    ensures Enabled(s, Helpful(s)) && Distance(s) > 0
    ensures var t := Next(s, Helpful(s)); t.settled || (Live(t) && Distance(t) < Distance(s))
  {
    match s.recoveryCycle {
      case Idle =>
      case Fetching =>
      case Answered(_) =>
        HelpfulBody(s);
      case Ending(_) =>
        HelpfulFinally(s);
    }
  }

  /** What happens without a socket, an abort or another search. */
  predicate OwnEvent(e: Event) {
    e.TimerFires? || e.GetReturns? || e.RequestClears? || e.CycleResumes? || e.CycleEnds? || e.ResyncResumes?
  }

  /** From every live state some continuation settles the promise: a monitor is never stuck. */
  lemma {:induction false} CanAlwaysSettle(s: State) returns (events: seq<Event>)
    requires Inv(s) && Live(s)
    ensures |events| <= Distance(s) && Run(s, events).settled
    ensures forall i | 0 <= i < |events| :: OwnEvent(events[i])
    decreases Distance(s)
  {
    hide Inv, Live, Enabled, Next, Distance;
    HelpfulStep(s);
    StepKeepsInv(s, Helpful(s));
    var t := Next(s, Helpful(s));
    var rest: seq<Event> := [];
    if !t.settled {
      rest := CanAlwaysSettle(t);
    }
    events := [Helpful(s)] + rest;
    assert events[1..] == rest;
  }

  // ---------- Backoff ----------

  /** Answers that keep the monitor going. */
  predicate Retried(outcome: Outcome) {
    outcome == Job(true) || (!outcome.Job? && !Permanent(outcome))
  }

  /** Waiting on the fallback timer with nothing else going on. */
  predicate Quiet(s: State, attempt: nat) {
    && Live(s) && s.recoveryAttempt == attempt && s.recoveryTimer == Some(Fallback(attempt))
    && !s.recoveryTimerImmediate && s.recoveryRequest == NoRequest && s.recoveryCycle == Idle
    && !s.immediateRecoveryPending && s.resyncWaiting == 0
  }

  function Round(outcome: Outcome): seq<Event> {
    [TimerFires, GetReturns(outcome), RequestClears, CycleResumes, CycleEnds]
  }

  lemma QuietRound(s: State, attempt: nat, outcome: Outcome)
    requires Quiet(s, attempt) && Retried(outcome)
    ensures Quiet(Run(s, Round(outcome)), Min(attempt + 1, 3))
  {
    var s1 := Next(s, TimerFires);
    var s2 := Next(s1, GetReturns(outcome));
    var s3 := Next(s2, RequestClears);
    var s4 := Next(s3, CycleResumes);
    var s5 := Next(s4, CycleEnds);
    RunRound(s, outcome, s1, s2, s3, s4, s5);
  }

  lemma RunRound(s: State, outcome: Outcome, s1: State, s2: State, s3: State, s4: State, s5: State)
    requires Enabled(s, TimerFires) && s1 == Next(s, TimerFires)
    requires Enabled(s1, GetReturns(outcome)) && s2 == Next(s1, GetReturns(outcome))
    requires Enabled(s2, RequestClears) && s3 == Next(s2, RequestClears)
    requires Enabled(s3, CycleResumes) && s4 == Next(s3, CycleResumes)
    requires Enabled(s4, CycleEnds) && s5 == Next(s4, CycleEnds)
    ensures Run(s, Round(outcome)) == s5
  {
    hide Enabled, Next;
    var events := Round(outcome);
    assert events[1..][1..] == events[2..] && events[2..][1..] == events[3..];
    assert events[3..][1..] == events[4..] && events[4..][1..] == [];
    assert Run(s, events) == Run(s1, events[1..]) == Run(s2, events[2..]) == Run(s3, events[3..]);
    assert Run(s3, events[3..]) == Run(s4, events[4..]) == Run(s5, []);
  }

  function Rounds(outcomes: seq<Outcome>): seq<Event> {
    if outcomes == [] then [] else Round(outcomes[0]) + Rounds(outcomes[1..])
  }

  lemma {:induction false} RunConcat(s: State, a: seq<Event>, b: seq<Event>)
    ensures Run(s, a + b) == Run(Run(s, a), b)
    decreases |a|
  {
    hide Enabled, Next;
    if a == [] {
      assert a + b == b;
    } else {
      assert (a + b)[1..] == a[1..] + b;
      RunConcat(if Enabled(s, a[0]) then Next(s, a[0]) else s, a[1..], b);
    }
  }

  /** After k quiet rounds without an end, the monitor waits for entry min(k, 3) of the table. */
  lemma {:induction false} BackoffClimbsTheTable(s: State, attempt: nat, outcomes: seq<Outcome>)
    requires Quiet(s, attempt) && attempt <= 3
    requires forall i | 0 <= i < |outcomes| :: Retried(outcomes[i])
    ensures Quiet(Run(s, Rounds(outcomes)), Min(attempt + |outcomes|, 3))
    decreases |outcomes|
  {
    hide Quiet;
    if outcomes != [] {
      QuietRound(s, attempt, outcomes[0]);
      RunConcat(s, Round(outcomes[0]), Rounds(outcomes[1..]));
      BackoffClimbsTheTable(Run(s, Round(outcomes[0])), Min(attempt + 1, 3), outcomes[1..]);
    }
  }
}
