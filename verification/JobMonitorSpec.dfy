/**
  * app/search-workspace.tsx, `monitorBackendJob`: the state of one job monitor and what each
  * of its closures does to it. Timers, promises and socket events are the steps of `Events`.
  */
module JobMonitorSpec {
  import opened Wrappers
  import opened Arithmetic

  const REST_RECOVERY_DELAYS_MS: seq<nat> := [1_500, 2_500, 5_000, 10_000]

  /** How one authoritative fetch ended. */
  datatype Outcome =
    | Job(active: bool)          // a job snapshot, in an active or a terminal phase
    | HttpFailure(status: nat)
    | OtherFailure               // network failures, stale snapshots, superseded searches

  /** The shared promise of the GET: on its way, or answered but not yet cleared. */
  datatype Request = NoRequest | InFlight | Returned(outcome: Outcome)

  /** The recovery cycle: waiting for the shared promise, resumable, or before its `finally`. */
  datatype Cycle = Idle | Fetching | Answered(outcome: Outcome) | Ending(scheduleNext: bool)

  datatype State = State(
    started: bool,                 // the promise executor has run to its end
    settled: bool,
    resolved: nat,                 // calls of resolve that had an effect
    rejected: nat,
    aborted: bool,
    abortHandled: bool,            // the signal was not yet aborted when the listener was added
    current: bool,                 // runningSearch.isCurrent(generation)
    recoveryAttempt: nat,
    recoveryTimer: Option<nat>,    // the delay of the armed timer
    recoveryTimerImmediate: bool,
    recoveryRequest: Request,
    outstandingGets: nat,
    getsIssued: nat,               // GETs so far, so that answers can be told apart by age
    recoveryCycle: Cycle,
    immediateRecoveryPending: bool,
    resyncWaiting: nat,            // resynchronization handlers awaiting the shared promise
    resyncAnswered: seq<Outcome>,  // handlers whose await has an answer
    sequenceGapPending: bool,
    resultsExpired: bool
  )

  /** Status codes that end the monitor instead of retrying. */
  predicate Permanent(outcome: Outcome) {
    outcome.HttpFailure? && 400 <= outcome.status < 500 && outcome.status != 408 && outcome.status != 429
  }

  function Initial(aborted: bool, current: bool): State {
    State(false, false, 0, 0, aborted, !aborted, current, 0, None, false, NoRequest, 0, 0, Idle, false,
          0, [], false, false)
  }

  /** The search's own signals and its promise are as before. */
  predicate SameSignals(s: State, t: State) {
    && t.started == s.started && t.settled == s.settled
    && t.resolved == s.resolved && t.rejected == s.rejected
    && t.aborted == s.aborted && t.abortHandled == s.abortHandled && t.current == s.current
  }

  /** `finish` and `fail`: only the first call settles, and it clears the timer. */
  function Settle(s: State, resolves: bool): (t: State)
    ensures t.started == s.started && t.settled
    ensures t.aborted == s.aborted && t.abortHandled == s.abortHandled && t.current == s.current
    ensures s.settled ==> t == s
  {
    if s.settled then s
    else s.(settled := true, recoveryTimer := None,
            resolved := s.resolved + (if resolves then 1 else 0),
            rejected := s.rejected + (if resolves then 0 else 1))
  }

  function Fallback(attempt: nat): nat {
    REST_RECOVERY_DELAYS_MS[Min(attempt, |REST_RECOVERY_DELAYS_MS| - 1)]
  }

  predicate Stopped(s: State) {
    s.settled || s.aborted || !s.current
  }

  function ScheduleRecovery(s: State, delay: Option<nat>): (t: State)
    ensures SameSignals(s, t)
    ensures Stopped(s) ==> t == s
  {
    var immediate := delay == Some(0);
    if Stopped(s) then s
    else if s.recoveryCycle != Idle then
      if immediate then s.(immediateRecoveryPending := true) else s
    else if s.recoveryTimer.Some? && s.recoveryTimerImmediate then s
    else
      var wait := match delay case Some(d) => d case None => Fallback(s.recoveryAttempt);
      s.(recoveryTimer := Some(wait), recoveryTimerImmediate := immediate)
  }

  /** Joins the shared promise, issuing a GET when there is none. */
  function FetchAuthoritative(s: State): (t: State)
    ensures SameSignals(s, t)
    ensures t.recoveryTimer == s.recoveryTimer && t.recoveryCycle == s.recoveryCycle
    ensures t.immediateRecoveryPending == s.immediateRecoveryPending && t.resyncWaiting == s.resyncWaiting
    ensures t.recoveryRequest != NoRequest
  {
    if s.recoveryRequest != NoRequest then s
    else s.(recoveryRequest := InFlight, outstandingGets := s.outstandingGets + 1, getsIssued := s.getsIssued + 1)
  }

  function RecoverFromRest(s: State): (t: State)
    ensures SameSignals(s, t)
    ensures t.recoveryTimer == s.recoveryTimer && t.recoveryCycle != Idle
  {
    if s.recoveryCycle != Idle then s
    else FetchAuthoritative(s).(recoveryCycle := Fetching)
  }

  function RefreshWatchdog(s: State): (t: State)
    ensures SameSignals(s, t)
    ensures Stopped(s) ==> t == s.(recoveryAttempt := 0)
  {
    ScheduleRecovery(s.(recoveryAttempt := 0), None)
  }

  function BumpAttempt(s: State): (t: State)
    ensures SameSignals(s, t) && t.recoveryTimer == s.recoveryTimer
  {
    s.(recoveryAttempt := Min(s.recoveryAttempt + 1, |REST_RECOVERY_DELAYS_MS| - 1))
  }

  /** The answer leaves the job active, or failed in a way worth retrying for a wanted search. */
  predicate GoesOn(s: State, outcome: Outcome) {
    match outcome
    case Job(active) => active
    case _ => !s.aborted && s.current && !Permanent(outcome)
  }

  /** A snapshot closes a sequence gap; a 410 for a wanted search marks its results expired. */
  function NoteAnswer(s: State, outcome: Outcome): (t: State)
    ensures SameSignals(s, t)
  {
    if outcome.Job? then s.(sequenceGapPending := false)
    else if outcome == HttpFailure(410) && !s.aborted && s.current then s.(resultsExpired := true)
    else s
  }

  /** Either one more attempt, or the promise is settled: resolved by a job, rejected by a failure. */
  function Conclude(s: State, outcome: Outcome): State {
    var t := NoteAnswer(s, outcome);
    if GoesOn(s, outcome) then BumpAttempt(t) else Settle(t, outcome.Job?)
  }

  function EndBody(s: State, scheduleNext: bool): State {
    s.(recoveryCycle := Ending(scheduleNext))
  }

  /** The cycle's body after its await, up to the end of its try and catch. */
  function CycleBody(s: State, outcome: Outcome): (t: State)
    ensures t.recoveryCycle == Ending(GoesOn(s, outcome))
    ensures t.settled <==> s.settled || !GoesOn(s, outcome)
    ensures t.started == s.started
    ensures t.aborted == s.aborted && t.abortHandled == s.abortHandled && t.current == s.current
    ensures t.recoveryRequest == s.recoveryRequest
    ensures t.immediateRecoveryPending == s.immediateRecoveryPending
    ensures s.settled ==> t.recoveryTimer == s.recoveryTimer && t.resolved == s.resolved && t.rejected == s.rejected
  {
    EndBody(Conclude(s, outcome), GoesOn(s, outcome))
  }

  /** The cycle's `finally`, a separate turn of the event loop. */
  function CycleFinally(s: State, scheduleNext: bool): (t: State)
    ensures SameSignals(s, t)
    ensures s.settled ==> t.recoveryTimer == s.recoveryTimer
  {
    var idle := s.(recoveryCycle := Idle, immediateRecoveryPending := false);
    if Stopped(s) then idle
    else if s.immediateRecoveryPending then ScheduleRecovery(idle, Some(0))
    else if scheduleNext then ScheduleRecovery(idle, None)
    else idle
  }

  /** A resynchronization handler after its await. */
  function ResyncBody(s: State, outcome: Outcome): State {
    match outcome
    case Job(active) => if active then RefreshWatchdog(s) else Settle(s, true)
    case _ => s
  }

  // ---------- Steps ----------

  datatype Event =
    | Start(socket: bool)      // the last line of the promise executor
    | Urgent                   // socket or protocol error, terminal event, inconsistent update
    | Watchdog                 // ordinary live traffic
    | SequenceGap
    | ResyncRequired
    | TimerFires
    | GetReturns(outcome: Outcome)
    | RequestClears            // the shared promise's `finally`; its awaits become resumable
    | CycleResumes
    | CycleEnds
    | ResyncResumes(index: nat)
    | Abort
    | Supersede

  /** Socket listeners live until the monitor settles; everything asynchronous needs a start. */
  predicate Enabled(s: State, e: Event) {
    match e
    case Start(_) => !s.started
    case Urgent => !s.settled
    case Watchdog => !s.settled
    case SequenceGap => !s.settled
    case ResyncRequired => !s.settled
    case TimerFires => s.started && s.recoveryTimer.Some?
    // A snapshot for a superseded search is refused before it gets here, and a signal that was
    // already aborted when the GET was issued lets no answer through.
    case GetReturns(outcome) =>
      s.started && s.recoveryRequest == InFlight && (outcome.Job? ==> s.current && (s.aborted ==> s.abortHandled))
    case RequestClears => s.started && s.recoveryRequest.Returned?
    case CycleResumes => s.started && s.recoveryCycle.Answered?
    case CycleEnds => s.started && s.recoveryCycle.Ending?
    case ResyncResumes(i) => s.started && i < |s.resyncAnswered|
    case Abort => s.started && !s.aborted
    case Supersede => s.started && s.current
  }

  function Repeat(outcome: Outcome, n: nat): (r: seq<Outcome>)
    ensures |r| == n
  {
    seq(n, i => outcome)
  }

  function Next(s: State, e: Event): State
    requires Enabled(s, e)
  {
    match e
    case Start(socket) =>
      ScheduleRecovery(s.(started := true), if socket then None else Some(0))
    case Urgent => ScheduleRecovery(s, Some(0))
    case Watchdog => RefreshWatchdog(s)
    case SequenceGap => ScheduleRecovery(s.(sequenceGapPending := true), Some(0))
    case ResyncRequired => FetchAuthoritative(s).(resyncWaiting := s.resyncWaiting + 1)
    case TimerFires => RecoverFromRest(s.(recoveryTimer := None, recoveryTimerImmediate := false))
    case GetReturns(outcome) =>
      s.(recoveryRequest := Returned(outcome),
         outstandingGets := if s.outstandingGets == 0 then 0 else s.outstandingGets - 1)
    case RequestClears =>
      var outcome := s.recoveryRequest.outcome;
      s.(recoveryRequest := NoRequest,
         recoveryCycle := if s.recoveryCycle == Fetching then Answered(outcome) else s.recoveryCycle,
         resyncWaiting := 0,
         resyncAnswered := s.resyncAnswered + Repeat(outcome, s.resyncWaiting))
    case CycleResumes => CycleBody(s, s.recoveryCycle.outcome)
    case CycleEnds => CycleFinally(s, s.recoveryCycle.scheduleNext)
    case ResyncResumes(i) =>
      ResyncBody(s.(resyncAnswered := s.resyncAnswered[..i] + s.resyncAnswered[i + 1..]), s.resyncAnswered[i])
    case Abort =>
      var t := s.(aborted := true);
      if s.abortHandled then Settle(t, false) else t
    case Supersede => s.(current := false)
  }

  /** A run: events that cannot happen in a state are passed over. */
  function Run(s: State, events: seq<Event>): State
    decreases |events|
  {
    if events == [] then s
    else Run(if Enabled(s, events[0]) then Next(s, events[0]) else s, events[1..])
  }
}
