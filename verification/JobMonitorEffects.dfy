/**
  * What the steps of a job monitor come to, in the monitor's own fields and the source's own numbers:
  * the delay of every armed timer over whole runs, and what each answer decides.
  */
module JobMonitorEffects {
  import opened Wrappers
  import opened Arithmetic
  import opened JobMonitorSpec
  import opened JobMonitorRuns

  /** Milliseconds to wait after that many retries in a row. */
  function Delay(retries: nat): nat {
    if retries == 0 then 1_500 else if retries == 1 then 2_500 else if retries == 2 then 5_000 else 10_000
  }

  // ---------- The delay of an armed timer ----------

  /** Live traffic: an ordinary socket event, or a resynchronization that found the job active. */
  predicate IsTraffic(s: State, e: Event) {
    e.Watchdog? || (e.ResyncResumes? && e.index < |s.resyncAnswered| && s.resyncAnswered[e.index] == Job(true))
  }

  /** A cycle's answer that leaves a live monitor waiting for another round. */
  predicate IsRetry(s: State, e: Event) {
    e.CycleResumes? && s.recoveryCycle.Answered? && Retried(s.recoveryCycle.outcome)
  }

  function CountRetries(s: State, e: Event, n: nat): nat {
    if IsTraffic(s, e) then 0 else if IsRetry(s, e) then n + 1 else n
  }

  /** Retries since the last live traffic along a run that began `n` retries after some. */
  function RetriesAfter(s: State, events: seq<Event>, n: nat): nat
    decreases |events|
  {
    if events == [] then n
    else if !Enabled(s, events[0]) then RetriesAfter(s, events[1..], n)
    else RetriesAfter(Next(s, events[0]), events[1..], CountRetries(s, events[0], n))
  }

  /** The backoff index and the armed timer of a monitor that is live, or not started yet. */
  predicate Paced(s: State, n: nat) {
    !Stopped(s) ==>
      && s.recoveryAttempt == Min(n, 3)
      && (s.recoveryTimer.Some? && s.recoveryTimer != Some(0) ==> s.recoveryTimer == Some(Delay(n)))
  }

  lemma SchedulePaces(s: State, delay: Option<nat>, n: nat)
    requires TimerConsistent(s) && !Stopped(s) && s.recoveryAttempt == Min(n, 3) && (delay == None || delay == Some(0))
    requires delay.None? || Paced(s, n)
    requires s.recoveryCycle != Idle ==> s.recoveryTimer.None?
    ensures Paced(ScheduleRecovery(s, delay), n)
  {
  }

  lemma WatchdogPaces(s: State)
    requires Inv(s) && !Stopped(s)
    ensures Paced(RefreshWatchdog(s), 0)
  {
    assert Inv(s.(recoveryAttempt := 0));
    SchedulePaces(s.(recoveryAttempt := 0), None, 0);
    hide ScheduleRecovery;
  }

  lemma TrafficPaces(s: State, e: Event)
    requires Inv(s) && Enabled(s, e) && IsTraffic(s, e) && !Stopped(s)
    ensures Paced(Next(s, e), 0)
  {
    if e.Watchdog? {
      WatchdogPaces(s);
    } else {
      var t := s.(resyncAnswered := s.resyncAnswered[..e.index] + s.resyncAnswered[e.index + 1..]);
      assert Inv(t);
      WatchdogPaces(t);
    }
    hide RefreshWatchdog, Settle;
  }

  lemma RetryPaces(s: State, outcome: Outcome, n: nat)
    requires s.recoveryAttempt == Min(n, 3) && s.recoveryTimer.None?
    ensures Paced(EndBody(BumpAttempt(NoteAnswer(s, outcome)), true), n + 1)
  {
  }

  lemma BodyPaces(s: State, n: nat)
    requires Inv(s) && Enabled(s, CycleResumes) && Paced(s, n) && !Stopped(s)
    ensures Paced(Next(s, CycleResumes), CountRetries(s, CycleResumes, n))
  {
    RetryPaces(s, s.recoveryCycle.outcome, n);
    hide Settle, BumpAttempt, EndBody, NoteAnswer;
  }

  lemma FinallyPaces(s: State, n: nat)
    requires Inv(s) && Enabled(s, CycleEnds) && Paced(s, n) && !Stopped(s)
    ensures Paced(Next(s, CycleEnds), n)
  {
    var idle := s.(recoveryCycle := Idle, immediateRecoveryPending := false);
    SchedulePaces(idle, Some(0), n);
    SchedulePaces(idle, None, n);
    hide ScheduleRecovery;
  }

  lemma StartPaces(s: State, socket: bool, n: nat)
    requires Inv(s) && !s.started && Paced(s, n) && !Stopped(s)
    ensures Paced(Next(s, Start(socket)), n)
  {
  }

  lemma UrgentPaces(s: State, e: Event, n: nat)
    requires Inv(s) && Enabled(s, e) && Paced(s, n) && !Stopped(s) && (e.Urgent? || e.SequenceGap?)
    ensures Paced(Next(s, e), n)
  {
  }

  lemma OthersPace(s: State, e: Event, n: nat)
    requires Inv(s) && Enabled(s, e) && Paced(s, n) && !Stopped(s) && !IsTraffic(s, e)
    requires e.ResyncRequired? || e.TimerFires? || e.GetReturns? || e.RequestClears?
          || e.ResyncResumes? || e.Abort? || e.Supersede?
    ensures Paced(Next(s, e), n)
  {
  }

  lemma StoppedStays(s: State, e: Event)
    requires Stopped(s) && Enabled(s, e)
    ensures Stopped(Next(s, e))
  {
  }

  lemma StepPaces(s: State, e: Event, n: nat)
    requires Inv(s) && Enabled(s, e) && Paced(s, n)
    ensures Paced(Next(s, e), CountRetries(s, e, n))
  {
    hide Inv, Enabled, Next;
    if Stopped(s) {
      StoppedStays(s, e);
    } else if IsTraffic(s, e) {
      TrafficPaces(s, e);
    } else if e.CycleResumes? {
      BodyPaces(s, n);
    } else if e.CycleEnds? {
      FinallyPaces(s, n);
    } else if e.Start? {
      StartEnabled(s, e);
      StartPaces(s, e.socket, n);
    } else if e.Urgent? || e.SequenceGap? {
      UrgentPaces(s, e, n);
    } else {
      OthersPace(s, e, n);
    }
  }

  lemma StartEnabled(s: State, e: Event)
    requires Enabled(s, e) && e.Start?
    ensures !s.started
  {
  }

  lemma {:induction false} RunPaces(s: State, events: seq<Event>, n: nat)
    requires Inv(s) && Paced(s, n)
    ensures Paced(Run(s, events), RetriesAfter(s, events, n))
    decreases |events|
  {
    hide Inv, Paced, Enabled, Next, CountRetries;
    if events != [] {
      if Enabled(s, events[0]) {
        StepKeepsInv(s, events[0]);
        StepPaces(s, events[0], n);
        RunPaces(Next(s, events[0]), events[1..], CountRetries(s, events[0], n));
      } else {
        RunPaces(s, events[1..], n);
      }
    }
  }

  /**
    * In every run, an ordinary timer of a live monitor waits 1,500, 2,500, 5,000 or 10,000 milliseconds for
    * no, one, two or more retries since the last live traffic, whatever came before that.
    */
  lemma ArmedDelay(aborted: bool, current: bool, events: seq<Event>)
    ensures var s := Run(Initial(aborted, current), events);
      Live(s) && s.recoveryTimer.Some? && s.recoveryTimer != Some(0) ==>
        s.recoveryTimer == Some(Delay(RetriesAfter(Initial(aborted, current), events, 0)))
  {
    hide Run, RetriesAfter, Delay;
    InitialInv(aborted, current);
    InitialPaced(aborted, current);
    RunPaces(Initial(aborted, current), events, 0);
  }

  lemma InitialPaced(aborted: bool, current: bool)
    ensures Paced(Initial(aborted, current), 0)
  {
  }

  /** Traffic takes a waiting monitor back to the first delay at once. */
  lemma TrafficResetsBackoff(s: State, attempt: nat)
    requires Quiet(s, attempt)
    ensures Quiet(Next(s, Watchdog), 0) && Next(s, Watchdog).recoveryTimer == Some(1_500)
  {
  }

  /** So does a resumed resynchronization that found the job active. */
  lemma ResyncResetsBackoff(s: State, attempt: nat, i: nat)
    requires Quiet(s, attempt) && i < |s.resyncAnswered| && s.resyncAnswered[i] == Job(true)
    ensures var t := Next(s, ResyncResumes(i)); Quiet(t, 0) && t.recoveryTimer == Some(1_500)
  {
  }

  /** After traffic in any reachable waiting state, k quiet rounds wait for entry min(k, 3) of the table. */
  lemma RoundsAfterTraffic(s: State, attempt: nat, outcomes: seq<Outcome>)
    requires Quiet(s, attempt)
    requires forall i | 0 <= i < |outcomes| :: Retried(outcomes[i])
    ensures var t := Run(Next(s, Watchdog), Rounds(outcomes));
      Quiet(t, Min(|outcomes|, 3)) && t.recoveryTimer == Some(Delay(|outcomes|))
  {
    hide Quiet, Next, Run, Rounds, Delay, Retried;
    WatchdogEnabled(s, attempt);
    TrafficResetsBackoff(s, attempt);
    BackoffClimbsTheTable(Next(s, Watchdog), 0, outcomes);
    QuietDelay(Run(Next(s, Watchdog), Rounds(outcomes)), |outcomes|);
  }

  lemma WatchdogEnabled(s: State, attempt: nat)
    requires Quiet(s, attempt)
    ensures Enabled(s, Watchdog)
  {
  }

  lemma QuietDelay(s: State, n: nat)
    requires Quiet(s, Min(n, 3))
    ensures s.recoveryTimer == Some(Delay(n))
  {
  }

  /** The end of the executor asks at once without a socket, and waits for one otherwise. */
  lemma FirstTimer(socket: bool)
    ensures var s := Next(Initial(false, true), Start(socket));
      Live(s) && s.recoveryTimer == Some(if socket then 1_500 else 0)
  {
  }

  // ---------- What answers decide ----------

  /** A status that a retry cannot help. */
  predicate Hopeless(status: nat) {
    400 <= status <= 499 && status != 408 && status != 429
  }

  /** What a cycle's answer decides in a monitor that is still wanted. */
  lemma AnswerDecides(s: State)
    requires Inv(s) && Live(s) && s.recoveryCycle.Answered?
    ensures var t := Next(s, CycleResumes);
      match s.recoveryCycle.outcome
      case Job(active) =>
        && t.settled == !active && t.resolved == (if active then 0 else 1) && t.rejected == 0
        && !t.sequenceGapPending && t.resultsExpired == s.resultsExpired
      case HttpFailure(status) =>
        && t.settled == Hopeless(status) && t.rejected == (if Hopeless(status) then 1 else 0) && t.resolved == 0
        && t.resultsExpired == (s.resultsExpired || status == 410) && t.sequenceGapPending == s.sequenceGapPending
      case OtherFailure =>
        !t.settled && t.resultsExpired == s.resultsExpired && t.sequenceGapPending == s.sequenceGapPending
  {
  }

  /** Any failure rejects a monitor that is no longer wanted, and marks nothing expired. */
  lemma FailureRejectsRevoked(s: State)
    requires Inv(s) && s.started && !s.settled && Stopped(s)
    requires s.recoveryCycle.Answered? && !s.recoveryCycle.outcome.Job?
    ensures var t := Next(s, CycleResumes);
      t.settled && t.rejected == 1 && t.resolved == 0 && t.resultsExpired == s.resultsExpired
  {
  }

  /** A resumed resynchronization handler resolves with a terminal job and ignores a failure. */
  lemma HandlerDecides(s: State, i: nat)
    requires Inv(s) && s.started && !s.settled && i < |s.resyncAnswered|
    ensures var t := Next(s, ResyncResumes(i));
      && t.resyncAnswered == s.resyncAnswered[..i] + s.resyncAnswered[i + 1..]
      && (s.resyncAnswered[i] == Job(false) ==> t.settled && t.resolved == 1 && t.rejected == 0)
      && (s.resyncAnswered[i] != Job(false) ==> !t.settled)
      && (!s.resyncAnswered[i].Job? ==> t == s.(resyncAnswered := t.resyncAnswered))
  {
  }

  /** An abort that is heard rejects the promise. */
  lemma AbortRejects(s: State)
    requires Inv(s) && Live(s) && s.abortHandled
    ensures var t := Next(s, Abort); t.settled && t.rejected == 1 && t.resolved == 0 && t.recoveryTimer.None?
  {
  }

  /** The one answer goes to the cycle that waits for it and to each waiting handler. */
  lemma AnswerReachesAll(s: State)
    requires Inv(s) && Enabled(s, RequestClears)
    ensures var t := Next(s, RequestClears);
      var outcome := s.recoveryRequest.outcome;
      && t.recoveryRequest == NoRequest && t.resyncWaiting == 0
      && (s.recoveryCycle == Fetching ==> t.recoveryCycle == Answered(outcome))
      && (s.recoveryCycle != Fetching ==> t.recoveryCycle == s.recoveryCycle)
      && |t.resyncAnswered| == |s.resyncAnswered| + s.resyncWaiting
      && t.resyncAnswered[..|s.resyncAnswered|] == s.resyncAnswered
      && forall i | |s.resyncAnswered| <= i < |t.resyncAnswered| :: t.resyncAnswered[i] == outcome
  {
  }

  lemma ScheduleKeepsGap(s: State, delay: Option<nat>)
    ensures ScheduleRecovery(s, delay).sequenceGapPending == s.sequenceGapPending
    ensures Settle(s, true).sequenceGapPending == Settle(s, false).sequenceGapPending == s.sequenceGapPending
  {
  }

  lemma NoteGap(s: State, outcome: Outcome)
    ensures NoteAnswer(s, outcome).sequenceGapPending <==> s.sequenceGapPending && !outcome.Job?
  {
  }

  lemma BumpKeepsGap(s: State, scheduleNext: bool)
    ensures BumpAttempt(s).sequenceGapPending == EndBody(s, scheduleNext).sequenceGapPending == s.sequenceGapPending
  {
  }

  lemma BodyGap(s: State)
    requires Enabled(s, CycleResumes)
    ensures Next(s, CycleResumes).sequenceGapPending <==>
      s.sequenceGapPending && !s.recoveryCycle.outcome.Job?
  {
    var outcome := s.recoveryCycle.outcome;
    var t := NoteAnswer(s, outcome);
    NoteGap(s, outcome);
    ScheduleKeepsGap(t, None);
    BumpKeepsGap(t, true);
    BumpKeepsGap(Conclude(s, outcome), GoesOn(s, outcome));
    hide NoteAnswer, Settle, BumpAttempt, EndBody, GoesOn;
  }

  lemma FinallyGap(s: State)
    requires Enabled(s, CycleEnds)
    ensures Next(s, CycleEnds).sequenceGapPending == s.sequenceGapPending
  {
    var idle := s.(recoveryCycle := Idle, immediateRecoveryPending := false);
    ScheduleKeepsGap(idle, Some(0));
    ScheduleKeepsGap(idle, None);
    hide ScheduleRecovery;
  }

  lemma HandlerGap(s: State, i: nat)
    requires Enabled(s, ResyncResumes(i))
    ensures Next(s, ResyncResumes(i)).sequenceGapPending == s.sequenceGapPending
  {
    var t := s.(resyncAnswered := s.resyncAnswered[..i] + s.resyncAnswered[i + 1..]);
    ScheduleKeepsGap(t, None);
    ScheduleKeepsGap(t.(recoveryAttempt := 0), None);
    hide ScheduleRecovery, Settle;
  }

  lemma TrafficGap(s: State, e: Event)
    requires Enabled(s, e) && (e.Urgent? || e.Watchdog? || e.SequenceGap?)
    ensures Next(s, e).sequenceGapPending <==> e.SequenceGap? || s.sequenceGapPending
  {
    ScheduleKeepsGap(s, Some(0));
    ScheduleKeepsGap(s.(sequenceGapPending := true), Some(0));
    ScheduleKeepsGap(s.(recoveryAttempt := 0), None);
    hide ScheduleRecovery;
  }

  lemma EndsGap(s: State, e: Event)
    requires Enabled(s, e) && (e.Start? || e.Abort? || e.Supersede?)
    ensures Next(s, e).sequenceGapPending == s.sequenceGapPending
  {
    ScheduleKeepsGap(s.(aborted := true), None);
    if e.Start? {
      ScheduleKeepsGap(s.(started := true), if e.socket then None else Some(0));
    }
    hide ScheduleRecovery, Settle;
  }

  lemma RequestGap(s: State, e: Event)
    requires Enabled(s, e) && (e.ResyncRequired? || e.TimerFires? || e.GetReturns? || e.RequestClears?)
    ensures Next(s, e).sequenceGapPending == s.sequenceGapPending
  {
  }

  /** A noted sequence gap is closed by the next snapshot a cycle takes, and by nothing else. */
  lemma GapUntilSnapshot(s: State, e: Event)
    requires Enabled(s, e)
    ensures Next(s, e).sequenceGapPending <==>
      e.SequenceGap?
      || (s.sequenceGapPending && !(e.CycleResumes? && s.recoveryCycle.outcome.Job?))
  {
    if e.CycleResumes? {
      BodyGap(s);
    } else if e.CycleEnds? {
      FinallyGap(s);
    } else if e.ResyncResumes? {
      HandlerGap(s, e.index);
    } else if e.Urgent? || e.Watchdog? || e.SequenceGap? {
      TrafficGap(s, e);
    } else if e.Start? || e.Abort? || e.Supersede? {
      EndsGap(s, e);
    } else {
      RequestGap(s, e);
    }
    hide Next;
  }
}
