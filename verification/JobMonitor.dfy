/** The closures of `monitorBackendJob` over their shared variables, proved against `JobMonitorSpec`. */
module JobMonitor {
  import opened Wrappers
  import opened Arithmetic
  import Spec = JobMonitorSpec
  import Runs = JobMonitorRuns

  class Monitor {
    var started: bool
    var settled: bool
    var resolved: nat
    var rejected: nat
    var aborted: bool
    const abortHandled: bool
    var current: bool
    var recoveryAttempt: nat
    var recoveryTimer: Option<nat>
    var recoveryTimerImmediate: bool
    var recoveryRequest: Spec.Request
    var outstandingGets: nat
    var getsIssued: nat
    var recoveryCycle: Spec.Cycle
    var immediateRecoveryPending: bool
    var resyncWaiting: nat
    var resyncAnswered: seq<Spec.Outcome>
    var sequenceGapPending: bool
    var resultsExpired: bool

    ghost function View(): Spec.State
      reads this
    {
      Spec.State(started, settled, resolved, rejected, aborted, abortHandled, current, recoveryAttempt,
                 recoveryTimer, recoveryTimerImmediate, recoveryRequest, outstandingGets, getsIssued,
                 recoveryCycle, immediateRecoveryPending, resyncWaiting, resyncAnswered, sequenceGapPending,
                 resultsExpired)
    }

    ghost predicate Valid()
      reads this
    {
      Runs.Inv(View())
    }

    constructor (aborted: bool, current: bool)
      ensures View() == Spec.Initial(aborted, current) && Valid()
    {
      this.aborted, this.abortHandled, this.current := aborted, !aborted, current;
      started, settled, resolved, rejected := false, false, 0, 0;
      recoveryAttempt, recoveryTimer, recoveryTimerImmediate := 0, None, false;
      recoveryRequest, outstandingGets, getsIssued, recoveryCycle := Spec.NoRequest, 0, 0, Spec.Idle;
      immediateRecoveryPending, resyncWaiting, resyncAnswered := false, 0, [];
      sequenceGapPending, resultsExpired := false, false;
    }

    method Finish()
      modifies `settled, `recoveryTimer, `resolved
      ensures View() == Spec.Settle(old(View()), true)
    {
      if settled {
        return;
      }
      settled := true;
      recoveryTimer := None;
      resolved := resolved + 1;
    }

    method Fail()
      modifies `settled, `recoveryTimer, `rejected
      ensures View() == Spec.Settle(old(View()), false)
    {
      if settled {
        return;
      }
      settled := true;
      recoveryTimer := None;
      rejected := rejected + 1;
    }

    method ScheduleRecovery(delay: Option<nat>)
      modifies `recoveryTimer, `recoveryTimerImmediate, `immediateRecoveryPending
      ensures View() == Spec.ScheduleRecovery(old(View()), delay)
    {
      if settled || aborted || !current {
        return;
      }
      var immediate := delay == Some(0);
      if recoveryCycle != Spec.Idle {
        if immediate {
          immediateRecoveryPending := true;
        }
        return;
      }
      if recoveryTimer.Some? {
        if recoveryTimerImmediate {
          return;
        }
        recoveryTimer := None;
      }
      var delays := Spec.REST_RECOVERY_DELAYS_MS;
      var fallbackDelay := delays[Min(recoveryAttempt, |delays| - 1)];
      recoveryTimerImmediate := immediate;
      recoveryTimer := Some(match delay case Some(d) => d case None => fallbackDelay);
    }

    method FetchAuthoritative()
      modifies `recoveryRequest, `outstandingGets, `getsIssued
      ensures View() == Spec.FetchAuthoritative(old(View()))
    {
      if recoveryRequest != Spec.NoRequest {
        return;
      }
      recoveryRequest := Spec.InFlight;
      outstandingGets := outstandingGets + 1;
      getsIssued := getsIssued + 1;
    }

    method RecoverFromRest()
      modifies `recoveryRequest, `outstandingGets, `getsIssued, `recoveryCycle
      ensures View() == Spec.RecoverFromRest(old(View()))
    {
      if recoveryCycle != Spec.Idle {
        return;
      }
      FetchAuthoritative();
      recoveryCycle := Spec.Fetching;
    }

    /** The cycle's `try`, for the snapshot it awaited. */
    method AcceptJob(active: bool) returns (scheduleNext: bool)
      modifies `settled, `recoveryTimer, `resolved, `recoveryAttempt, `sequenceGapPending
      ensures View() == Spec.Conclude(old(View()), Spec.Job(active))
      ensures scheduleNext == Spec.GoesOn(old(View()), Spec.Job(active))
    {
      hide Spec.Settle, Spec.BumpAttempt;
      sequenceGapPending := false;
      if !active {
        Finish();
        return false;
      }
      BumpAttempt();
      return true;
    }

    /** The cycle's `catch`. */
    method AcceptFailure(outcome: Spec.Outcome) returns (scheduleNext: bool)
      requires !outcome.Job?
      modifies `settled, `recoveryTimer, `rejected, `recoveryAttempt, `resultsExpired
      ensures View() == Spec.Conclude(old(View()), outcome)
      ensures scheduleNext == Spec.GoesOn(old(View()), outcome)
    {
      hide Spec.Settle, Spec.BumpAttempt;
      if aborted || !current {
        Fail();
        return false;
      }
      if Spec.Permanent(outcome) {
        if outcome.status == 410 {
          resultsExpired := true;
        }
        Fail();
        return false;
      }
      BumpAttempt();
      return true;
    }

    method CycleBody(outcome: Spec.Outcome)
      modifies `settled, `recoveryTimer, `resolved, `rejected, `recoveryAttempt, `recoveryCycle
      modifies `sequenceGapPending, `resultsExpired
      ensures View() == Spec.CycleBody(old(View()), outcome)
    {
      hide Spec.Conclude, Spec.GoesOn;
      var scheduleNext;
      if outcome.Job? {
        scheduleNext := AcceptJob(outcome.active);
      } else {
        scheduleNext := AcceptFailure(outcome);
      }
      recoveryCycle := Spec.Ending(scheduleNext);
    }

    method BumpAttempt()
      modifies `recoveryAttempt
      ensures View() == Spec.BumpAttempt(old(View()))
    {
      recoveryAttempt := Min(recoveryAttempt + 1, |Spec.REST_RECOVERY_DELAYS_MS| - 1);
    }

    method CycleFinally(scheduleNext: bool)
      modifies `recoveryTimer, `recoveryTimerImmediate, `immediateRecoveryPending, `recoveryCycle
      ensures View() == Spec.CycleFinally(old(View()), scheduleNext)
    {
      recoveryCycle := Spec.Idle;
      if settled || aborted || !current {
        immediateRecoveryPending := false;
        return;
      }
      if immediateRecoveryPending {
        immediateRecoveryPending := false;
        ScheduleRecovery(Some(0));
      } else if scheduleNext {
        ScheduleRecovery(None);
      }
    }

    method RefreshWatchdog()
      modifies `recoveryTimer, `recoveryTimerImmediate, `immediateRecoveryPending, `recoveryAttempt
      ensures View() == Spec.RefreshWatchdog(old(View()))
    {
      recoveryAttempt := 0;
      ScheduleRecovery(None);
    }

    method ResyncBody(outcome: Spec.Outcome)
      modifies `recoveryTimer, `recoveryTimerImmediate, `immediateRecoveryPending, `recoveryAttempt, `settled, `resolved
      ensures View() == Spec.ResyncBody(old(View()), outcome)
    {
      match outcome {
        case Job(active) =>
          if active {
            RefreshWatchdog();
          } else {
            Finish();
          }
        case _ =>
      }
    }

    // ---------- Event handlers ----------

    method OnStart(socket: bool)
      requires !started
      modifies `started, `recoveryTimer, `recoveryTimerImmediate, `immediateRecoveryPending
      ensures View() == Spec.Next(old(View()), Spec.Start(socket))
    {
      hide Spec.ScheduleRecovery;
      started := true;
      ScheduleRecovery(if socket then None else Some(0));
    }

    method OnSequenceGap()
      requires !settled
      modifies `sequenceGapPending, `recoveryTimer, `recoveryTimerImmediate, `immediateRecoveryPending
      ensures View() == Spec.Next(old(View()), Spec.SequenceGap)
    {
      hide Spec.ScheduleRecovery;
      sequenceGapPending := true;
      ScheduleRecovery(Some(0));
    }

    method OnResyncRequired()
      requires !settled
      modifies `recoveryRequest, `outstandingGets, `getsIssued, `resyncWaiting
      ensures View() == Spec.Next(old(View()), Spec.ResyncRequired)
    {
      hide Spec.FetchAuthoritative;
      FetchAuthoritative();
      resyncWaiting := resyncWaiting + 1;
    }

    /** The timer's callback. */
    method OnTimer()
      requires started && recoveryTimer.Some?
      modifies `recoveryTimer, `recoveryTimerImmediate, `recoveryRequest, `outstandingGets, `getsIssued, `recoveryCycle
      ensures View() == Spec.Next(old(View()), Spec.TimerFires)
    {
      hide Spec.RecoverFromRest;
      recoveryTimer, recoveryTimerImmediate := None, false;
      RecoverFromRest();
    }

    method OnGetReturned(outcome: Spec.Outcome)
      requires Spec.Enabled(View(), Spec.GetReturns(outcome))
      modifies `recoveryRequest, `outstandingGets
      ensures View() == Spec.Next(old(View()), Spec.GetReturns(outcome))
    {
      recoveryRequest := Spec.Returned(outcome);
      outstandingGets := if outstandingGets == 0 then 0 else outstandingGets - 1;
    }

    /** The shared promise's `finally` resets it; whoever awaited it can go on. */
    method OnRequestCleared()
      requires started && recoveryRequest.Returned?
      modifies `recoveryRequest, `recoveryCycle, `resyncAnswered, `resyncWaiting
      ensures View() == Spec.Next(old(View()), Spec.RequestClears)
    {
      var outcome := recoveryRequest.outcome;
      recoveryRequest := Spec.NoRequest;
      if recoveryCycle == Spec.Fetching {
        recoveryCycle := Spec.Answered(outcome);
      }
      resyncAnswered := resyncAnswered + Spec.Repeat(outcome, resyncWaiting);
      resyncWaiting := 0;
    }

    method OnResyncResumed(i: nat)
      requires started && i < |resyncAnswered|
      modifies `resyncAnswered, `recoveryTimer, `recoveryTimerImmediate, `immediateRecoveryPending
      modifies `recoveryAttempt, `settled, `resolved
      ensures View() == Spec.Next(old(View()), Spec.ResyncResumes(i))
    {
      hide Spec.ResyncBody;
      var outcome := resyncAnswered[i];
      resyncAnswered := resyncAnswered[..i] + resyncAnswered[i + 1..];
      ResyncBody(outcome);
    }

    method OnAbort()
      requires started && !aborted
      modifies `aborted, `settled, `recoveryTimer, `rejected
      ensures View() == Spec.Next(old(View()), Spec.Abort)
    {
      hide Spec.Settle;
      aborted := true;
      if abortHandled {
        Fail();
      }
    }

    /** One turn of the event loop: it does what the step says and keeps the invariant. */
    method Handle(e: Spec.Event)
      requires Valid() && Spec.Enabled(View(), e)
      modifies this
      ensures View() == Spec.Next(old(View()), e) && Valid()
    {
      ghost var before := View();
      Dispatch(e);
      Runs.StepKeepsInv(before, e);
    }

    method Dispatch(e: Spec.Event)
      requires Spec.Enabled(View(), e)
      modifies this
      ensures View() == Spec.Next(old(View()), e)
    {
      hide Spec.ScheduleRecovery, Spec.RefreshWatchdog, Spec.CycleBody, Spec.CycleFinally;
      match e {
        case Start(socket) => OnStart(socket);
        case Urgent => ScheduleRecovery(Some(0));
        case Watchdog => RefreshWatchdog();
        case SequenceGap => OnSequenceGap();
        case ResyncRequired => OnResyncRequired();
        case TimerFires => OnTimer();
        case GetReturns(outcome) => OnGetReturned(outcome);
        case RequestClears => OnRequestCleared();
        case CycleResumes => CycleBody(recoveryCycle.outcome);
        case CycleEnds => CycleFinally(recoveryCycle.scheduleNext);
        case ResyncResumes(i) => OnResyncResumed(i);
        case Abort => OnAbort();
        case Supersede => current := false;
      }
    }
  }
}
