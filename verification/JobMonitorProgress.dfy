/**
  * Settlement is inevitable: once the server answers with a terminal job, a live monitor that is neither
  * aborted nor superseded settles within a bounded number of its own steps, whatever its socket brings.
  */
module JobMonitorProgress {
  import opened Wrappers
  import opened JobMonitorSpec
  import opened JobMonitorRuns

  /** From here on the server says the job is over, and nobody revokes the monitor. */
  predicate Terminating(e: Event) {
    e != Abort && e != Supersede && (e.GetReturns? ==> e.outcome == Job(false))
  }

  predicate AllTerminating(events: seq<Event>) {
    forall i | 0 <= i < |events| :: Terminating(events[i])
  }

  /** An earlier answer, not a terminal job, that nobody has taken yet. */
  predicate Outdated(request: Request) {
    request.Returned? && request.outcome != Job(false)
  }

  /** Own steps left to the cycle, its GET aside; an outdated answer costs it one more round. */
  function CycleSteps(s: State): (n: nat)
    ensures n > 0
  {
    var outdated := Outdated(s.recoveryRequest);
    match s.recoveryCycle
    case Idle => if outdated then 7 else 4
    case Fetching => if outdated then 6 else 1
    case Answered(outcome) => if outcome == Job(false) then 1 else if outdated then 9 else 6
    case Ending(_) => if outdated then 8 else 5
  }

  function RequestSteps(s: State): nat {
    match s.recoveryRequest
    case NoRequest => 0
    case InFlight => 2
    case Returned(_) => 1
  }

  /** A bound on the own steps before settlement, but for what later resynchronizations add. */
  function Energy(s: State): (n: nat)
    ensures n > 0
  {
    CycleSteps(s) + RequestSteps(s) + s.resyncWaiting + |s.resyncAnswered|
  }

  /** What one event costs: an own step takes at least one, a resynchronization adds at most three. */
  predicate Pays(s: State, e: Event, t: State) {
    if OwnEvent(e) then Energy(t) < Energy(s)
    else if e == ResyncRequired then Energy(t) <= Energy(s) + 3
    else Energy(t) <= Energy(s)
  }

  lemma TimerPays(s: State)
    requires Inv(s) && Live(s) && Enabled(s, TimerFires)
    ensures Live(Next(s, TimerFires)) && Pays(s, TimerFires, Next(s, TimerFires))
  {
  }

  lemma AnswerPays(s: State)
    requires Inv(s) && Live(s) && Enabled(s, GetReturns(Job(false)))
    ensures var t := Next(s, GetReturns(Job(false))); Live(t) && Pays(s, GetReturns(Job(false)), t)
  {
  }

  lemma ClearPays(s: State)
    requires Inv(s) && Live(s) && Enabled(s, RequestClears)
    ensures Live(Next(s, RequestClears)) && Pays(s, RequestClears, Next(s, RequestClears))
  {
  }

  lemma BodyPays(s: State)
    requires Inv(s) && Live(s) && Enabled(s, CycleResumes)
    ensures var t := Next(s, CycleResumes); t.settled || (Live(t) && Pays(s, CycleResumes, t))
  {
    var outcome := s.recoveryCycle.outcome;
    if GoesOn(s, outcome) {
      assert Next(s, CycleResumes)
          == EndBody(BumpAttempt(NoteAnswer(s, outcome)), true);
    }
    hide Settle;
  }

  lemma FinallyPays(s: State)
    requires Inv(s) && Live(s) && Enabled(s, CycleEnds)
    ensures Live(Next(s, CycleEnds)) && Pays(s, CycleEnds, Next(s, CycleEnds))
  {
  }

  /** Scheduling leaves the cycle, the request and the handlers alone. */
  lemma ScheduleKeepsRest(s: State, delay: Option<nat>)
    ensures var t := ScheduleRecovery(s, delay);
      && t.recoveryCycle == s.recoveryCycle && t.recoveryRequest == s.recoveryRequest
      && t.resyncWaiting == s.resyncWaiting && t.resyncAnswered == s.resyncAnswered
  {
  }

  lemma HandlerPays(s: State, i: nat)
    requires Inv(s) && Live(s) && Enabled(s, ResyncResumes(i))
    ensures var t := Next(s, ResyncResumes(i)); t.settled || (Live(t) && Pays(s, ResyncResumes(i), t))
  {
    var t := s.(resyncAnswered := s.resyncAnswered[..i] + s.resyncAnswered[i + 1..]);
    ScheduleKeepsRest(t.(recoveryAttempt := 0), None);
    hide ScheduleRecovery;
  }

  lemma TrafficPays(s: State, e: Event)
    requires Inv(s) && Live(s) && Enabled(s, e) && (e.Urgent? || e.Watchdog? || e.SequenceGap?)
    ensures Live(Next(s, e)) && Pays(s, e, Next(s, e))
  {
  }

  lemma ResyncPays(s: State)
    requires Inv(s) && Live(s)
    ensures Enabled(s, ResyncRequired)
    ensures Live(Next(s, ResyncRequired)) && Pays(s, ResyncRequired, Next(s, ResyncRequired))
  {
  }

  lemma StepPays(s: State, e: Event)
    requires Inv(s) && Live(s) && Enabled(s, e) && Terminating(e)
    ensures var t := Next(s, e); t.settled || (Live(t) && Pays(s, e, t))
  {
    assert !e.Start?;
    hide Inv, Live, Enabled, Next, Pays;
    match e {
      case TimerFires => TimerPays(s);
      case GetReturns(_) => AnswerPays(s);
      case RequestClears => ClearPays(s);
      case CycleResumes => BodyPays(s);
      case CycleEnds => FinallyPays(s);
      case ResyncResumes(i) => HandlerPays(s, i);
      case ResyncRequired => ResyncPays(s);
      case Urgent => TrafficPays(s, e);
      case Watchdog => TrafficPays(s, e);
      case SequenceGap => TrafficPays(s, e);
    }
  }

  /** Own steps that take effect along a run. */
  function OwnSteps(s: State, events: seq<Event>): nat
    decreases |events|
  {
    if events == [] then 0
    else if !Enabled(s, events[0]) then OwnSteps(s, events[1..])
    else (if OwnEvent(events[0]) then 1 else 0) + OwnSteps(Next(s, events[0]), events[1..])
  }

  function Resyncs(events: seq<Event>): nat
    decreases |events|
  {
    if events == [] then 0 else (if events[0] == ResyncRequired then 1 else 0) + Resyncs(events[1..])
  }

  lemma TerminatingRest(events: seq<Event>)
    requires AllTerminating(events) && events != []
    ensures Terminating(events[0]) && AllTerminating(events[1..])
  {
  }

  lemma SettledRunStaysSettled(s: State, events: seq<Event>)
    requires Inv(s) && s.settled
    ensures Run(s, events).settled
  {
    hide Run;
    SettledForever(s, events, s.resolved, s.rejected);
  }

  lemma PaidInFull(s: State, e: Event, t: State)
    requires Pays(s, e, t)
    ensures Energy(t) + (if OwnEvent(e) then 1 else 0) <= Energy(s) + (if e == ResyncRequired then 3 else 0)
  {
  }

  lemma {:induction false} UnsettledRunIsShort(s: State, events: seq<Event>)
    requires Inv(s) && Live(s) && AllTerminating(events) && !Run(s, events).settled
    ensures OwnSteps(s, events) < Energy(s) + 3 * Resyncs(events)
    decreases |events|
  {
    hide Inv, Live, Enabled, Next, Pays, Energy, AllTerminating, Terminating, OwnEvent;
    if events != [] {
      TerminatingRest(events);
      var e := events[0];
      if Enabled(s, e) {
        var t := Next(s, e);
        StepKeepsInv(s, e);
        StepPays(s, e);
        if t.settled {
          SettledRunStaysSettled(t, events[1..]);
        } else {
          PaidInFull(s, e, t);
          UnsettledRunIsShort(t, events[1..]);
        }
      } else {
        UnsettledRunIsShort(s, events[1..]);
      }
    }
  }

  /**
    * From any live state with the invariant, every run in which the server answers with terminal jobs and
    * nobody aborts or supersedes has settled after as many own steps as the state's energy, plus three
    * for each resynchronization the socket demands meanwhile.
    */
  lemma SettlesInevitably(s: State, events: seq<Event>)
    requires Inv(s) && Live(s) && AllTerminating(events)
    requires OwnSteps(s, events) >= Energy(s) + 3 * Resyncs(events)
    ensures Run(s, events).settled
  {
    hide Inv, Live, Run, OwnSteps, Energy, Resyncs, AllTerminating;
    if !Run(s, events).settled {
      UnsettledRunIsShort(s, events);
    }
  }

  /** That energy is a small constant and the handlers that wait or hold an answer. */
  lemma EnergyIsSmall(s: State)
    ensures Energy(s) <= 11 + s.resyncWaiting + |s.resyncAnswered|
  {
  }

  /** While unsettled there always is an own step to take. */
  lemma AlwaysAnOwnStep(s: State)
    requires Inv(s) && Live(s)
    ensures Enabled(s, Helpful(s)) && OwnEvent(Helpful(s)) && Terminating(Helpful(s))
  {
  }
}
