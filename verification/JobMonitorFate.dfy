/**
  * What becomes of a job monitor that is no longer wanted: which unsettled states can never settle,
  * which can still go silent, and whose answer serves an urgent request.
  */
module JobMonitorFate {
  import opened Wrappers
  import opened JobMonitorSpec
  import opened JobMonitorRuns

  predicate SocketEvent(e: Event) {
    e.Urgent? || e.Watchdog? || e.SequenceGap? || e.ResyncRequired?
  }

  /** Anything but an abort; without a socket, nothing that only a socket brings. */
  predicate Unaided(events: seq<Event>, socket: bool) {
    forall i | 0 <= i < |events| :: events[i] != Abort && (SocketEvent(events[i]) ==> socket)
  }

  /** Started and unsettled, but superseded, or aborted before anyone listened. */
  predicate Revoked(s: State) {
    s.started && !s.settled && Stopped(s)
  }

  /** The recovery cycle will come to nothing: it has, or will have, an active job for its answer. */
  predicate CycleSpent(s: State) {
    match s.recoveryCycle
    case Idle => s.recoveryTimer.None?
    case Fetching => s.recoveryRequest == Returned(Job(true))
    case Answered(outcome) => outcome == Job(true)
    case Ending(_) => true
  }

  /** Nor does a resynchronization handler have, or get, a terminal job. */
  predicate Mute(s: State, socket: bool) {
    && CycleSpent(s)
    && Job(false) !in s.resyncAnswered
    && (s.recoveryRequest == Returned(Job(false)) ==> s.resyncWaiting == 0 && !socket)
  }

  /** No run without an abort settles the promise. */
  ghost predicate NeverSettles(s: State, socket: bool) {
    forall events | Unaided(events, socket) :: !Run(s, events).settled
  }

  // ---------- A mute monitor stays mute ----------

  lemma RepeatHolds(outcome: Outcome, n: nat, other: Outcome)
    ensures other in Repeat(outcome, n) <==> n > 0 && outcome == other
  {
    if n > 0 {
      assert Repeat(outcome, n)[0] == outcome;
    }
  }

  lemma RemovedKeeps<T>(list: seq<T>, i: nat, x: T)
    requires i < |list|
    ensures x !in list ==> x !in list[..i] + list[i + 1..]
    ensures x in list && list[i] != x ==> x in list[..i] + list[i + 1..]
  {
  }

  /** A revoked monitor schedules nothing. */
  lemma RevokedSchedulesNothing(s: State, delay: Option<nat>)
    requires Revoked(s)
    ensures ScheduleRecovery(s, delay) == s
    ensures RefreshWatchdog(s) == s.(recoveryAttempt := 0)
  {
  }

  lemma RevokedStaysRevoked(s: State, e: Event)
    requires Inv(s) && Revoked(s) && Enabled(s, e) && e != Abort
    ensures Revoked(Next(s, e)) || Next(s, e).settled
  {
  }

  lemma ClearKeepsMute(s: State, socket: bool)
    requires Inv(s) && Mute(s, socket) && Enabled(s, RequestClears)
    ensures Mute(Next(s, RequestClears), socket)
  {
  }

  lemma ResumeKeepsMute(s: State, i: nat, socket: bool)
    requires Revoked(s) && Mute(s, socket) && Enabled(s, ResyncResumes(i))
    ensures Mute(Next(s, ResyncResumes(i)), socket) && !Next(s, ResyncResumes(i)).settled
  {
  }

  lemma CycleKeepsMute(s: State, e: Event, socket: bool)
    requires Inv(s) && Revoked(s) && Mute(s, socket) && Enabled(s, e)
    requires e.CycleResumes? || e.CycleEnds?
    ensures Mute(Next(s, e), socket) && !Next(s, e).settled
  {
  }

  predicate Schedules(e: Event) {
    e.Urgent? || e.Watchdog? || e.SequenceGap?
  }

  predicate Asks(e: Event) {
    e.Start? || e.ResyncRequired? || e.TimerFires? || e.GetReturns? || e.Supersede?
  }

  /** Traffic changes nothing that matters for a revoked monitor. */
  lemma TrafficChangesLittle(s: State, e: Event)
    requires Revoked(s) && Enabled(s, e) && Schedules(e)
    ensures Next(s, e) == s.(recoveryAttempt := Next(s, e).recoveryAttempt,
                             sequenceGapPending := Next(s, e).sequenceGapPending)
  {
    hide ScheduleRecovery, RefreshWatchdog;
    RevokedSchedulesNothing(s, Some(0));
    RevokedSchedulesNothing(s.(sequenceGapPending := true), Some(0));
  }

  lemma AskingKeepsMute(s: State, e: Event, socket: bool)
    requires Inv(s) && Revoked(s) && Mute(s, socket) && Enabled(s, e) && Asks(e)
    requires SocketEvent(e) ==> socket
    ensures Mute(Next(s, e), socket)
  {
  }

  lemma LittleKeepsMute(s: State, t: State, socket: bool)
    requires Revoked(s) && Mute(s, socket)
    requires t == s.(recoveryAttempt := t.recoveryAttempt, sequenceGapPending := t.sequenceGapPending)
    ensures Revoked(t) && Mute(t, socket)
  {
  }

  lemma AskingDoesNotSettle(s: State, e: Event)
    requires Revoked(s) && Enabled(s, e) && (Asks(e) || e.RequestClears?)
    ensures !Next(s, e).settled
  {
  }

  lemma MuteStep(s: State, e: Event, socket: bool)
    requires Inv(s) && Revoked(s) && Mute(s, socket) && Enabled(s, e)
    requires e != Abort && (SocketEvent(e) ==> socket)
    ensures Revoked(Next(s, e)) && Mute(Next(s, e), socket)
  {
    hide Inv, Revoked, Mute, Enabled, Next;
    RevokedStaysRevoked(s, e);
    if e == RequestClears {
      ClearKeepsMute(s, socket);
      AskingDoesNotSettle(s, e);
    } else if e.ResyncResumes? {
      ResumeKeepsMute(s, e.index, socket);
    } else if e.CycleResumes? || e.CycleEnds? {
      CycleKeepsMute(s, e, socket);
    } else if Schedules(e) {
      TrafficChangesLittle(s, e);
      LittleKeepsMute(s, Next(s, e), socket);
    } else {
      AskingKeepsMute(s, e, socket);
      AskingDoesNotSettle(s, e);
    }
  }

  lemma UnaidedRest(events: seq<Event>, socket: bool)
    requires Unaided(events, socket) && events != []
    ensures events[0] != Abort && (SocketEvent(events[0]) ==> socket) && Unaided(events[1..], socket)
  {
  }

  lemma {:induction false} MuteForever(s: State, events: seq<Event>, socket: bool)
    requires Inv(s) && Revoked(s) && Mute(s, socket) && Unaided(events, socket)
    ensures Revoked(Run(s, events)) && Mute(Run(s, events), socket)
    decreases |events|
  {
    hide Inv, Revoked, Mute, Unaided, Enabled, Next;
    if events != [] {
      UnaidedRest(events, socket);
      if Enabled(s, events[0]) {
        StepKeepsInv(s, events[0]);
        MuteStep(s, events[0], socket);
      }
      MuteForever(if Enabled(s, events[0]) then Next(s, events[0]) else s, events[1..], socket);
    }
  }

  // ---------- Any other revoked monitor can settle ----------

  /** Brings the cycle of a revoked monitor to an answer that settles it. */
  function Closing(s: State): Event {
    match s.recoveryCycle
    case Idle => if s.recoveryRequest == Returned(Job(true)) then RequestClears else TimerFires
    case Fetching => if s.recoveryRequest == InFlight then GetReturns(OtherFailure) else RequestClears
    case _ => CycleResumes
  }

  function ClosingDistance(s: State): (n: nat)
    ensures 1 <= n <= 5
  {
    match s.recoveryCycle
    case Idle => if s.recoveryRequest == Returned(Job(true)) then 5 else 4
    case Fetching => if s.recoveryRequest == InFlight then 3 else 2
    case _ => 1
  }

  lemma IdleCloses(s: State)
    requires Inv(s) && Revoked(s) && !CycleSpent(s) && s.recoveryCycle == Idle
    ensures Enabled(s, Closing(s)) && OwnEvent(Closing(s))
    ensures var t := Next(s, Closing(s));
      Revoked(t) && !CycleSpent(t) && ClosingDistance(t) < ClosingDistance(s)
  {
  }

  lemma ClosingStep(s: State)
    requires Inv(s) && Revoked(s) && !CycleSpent(s)
    ensures Enabled(s, Closing(s)) && OwnEvent(Closing(s))
    ensures var t := Next(s, Closing(s));
      t.settled || (Revoked(t) && !CycleSpent(t) && ClosingDistance(t) < ClosingDistance(s))
  {
    hide CycleBody;
    match s.recoveryCycle {
      case Idle =>
        IdleCloses(s);
      case Fetching =>
      case _ =>
    }
  }

  lemma {:induction false} UnspentCycleSettles(s: State) returns (events: seq<Event>)
    requires Inv(s) && Revoked(s) && !CycleSpent(s)
    ensures Run(s, events).settled && forall i | 0 <= i < |events| :: OwnEvent(events[i])
    ensures |events| <= ClosingDistance(s)
    decreases ClosingDistance(s)
  {
    hide Inv, Revoked, CycleSpent, Enabled, Next, OwnEvent, ClosingDistance, Closing;
    ClosingStep(s);
    StepKeepsInv(s, Closing(s));
    var t := Next(s, Closing(s));
    var rest: seq<Event> := [];
    if !t.settled {
      rest := UnspentCycleSettles(t);
    }
    events := [Closing(s)] + rest;
    assert events[1..] == rest;
  }

  /** A handler that holds a terminal job settles when it resumes. */
  lemma HeldTerminalSettles(s: State) returns (i: nat)
    requires Revoked(s) && Job(false) in s.resyncAnswered
    ensures Enabled(s, ResyncResumes(i)) && Next(s, ResyncResumes(i)).settled
  {
    i :| 0 <= i < |s.resyncAnswered| && s.resyncAnswered[i] == Job(false);
  }

  /** Nor does the cycle matter once a terminal job is on its way to a handler. */
  lemma PendingTerminalIsHeld(s: State)
    requires Revoked(s) && s.recoveryRequest == Returned(Job(false)) && s.resyncWaiting > 0
    ensures Enabled(s, RequestClears)
    ensures var t := Next(s, RequestClears); Revoked(t) && Job(false) in t.resyncAnswered
  {
    RepeatHolds(Job(false), s.resyncWaiting, Job(false));
  }

  lemma ResyncJoinsPending(s: State)
    requires Revoked(s) && s.recoveryRequest == Returned(Job(false))
    ensures Enabled(s, ResyncRequired)
    ensures var t := Next(s, ResyncRequired);
      Revoked(t) && t.recoveryRequest == s.recoveryRequest && t.resyncWaiting > 0
  {
  }

  lemma RunOne(s: State, e: Event, rest: seq<Event>)
    requires Enabled(s, e)
    ensures Run(s, [e] + rest) == Run(Next(s, e), rest)
  {
  }

  lemma UnaidedCons(e: Event, rest: seq<Event>, socket: bool)
    requires Unaided(rest, socket) && e != Abort && (SocketEvent(e) ==> socket)
    ensures Unaided([e] + rest, socket)
  {
  }

  lemma HeldSettles(s: State) returns (events: seq<Event>)
    requires Revoked(s) && Job(false) in s.resyncAnswered
    ensures Unaided(events, false) && |events| == 1 && Run(s, events).settled
  {
    hide Revoked, Enabled, Next;
    var i := HeldTerminalSettles(s);
    events := [ResyncResumes(i)];
    assert Run(s, events) == Run(Next(s, ResyncResumes(i)), []);
  }

  lemma PendingSettles(s: State) returns (events: seq<Event>)
    requires Revoked(s) && s.recoveryRequest == Returned(Job(false)) && s.resyncWaiting > 0
    ensures Unaided(events, false) && |events| == 2 && Run(s, events).settled
  {
    hide Revoked, Enabled, Next, Run, Unaided;
    PendingTerminalIsHeld(s);
    var rest := HeldSettles(Next(s, RequestClears));
    events := [RequestClears] + rest;
    RunOne(s, RequestClears, rest);
    UnaidedCons(RequestClears, rest, false);
  }

  lemma JoiningSettles(s: State) returns (events: seq<Event>)
    requires Revoked(s) && s.recoveryRequest == Returned(Job(false))
    ensures Unaided(events, true) && |events| == 3 && Run(s, events).settled
  {
    hide Revoked, Enabled, Next, Run;
    ResyncJoinsPending(s);
    var rest := PendingSettles(Next(s, ResyncRequired));
    events := [ResyncRequired] + rest;
    RunOne(s, ResyncRequired, rest);
    UnaidedCons(ResyncRequired, rest, true);
  }

  lemma OwnIsUnaided(events: seq<Event>, socket: bool)
    requires forall i | 0 <= i < |events| :: OwnEvent(events[i])
    ensures Unaided(events, socket)
  {
  }

  lemma NotMuteSettles(s: State, socket: bool) returns (events: seq<Event>)
    requires Inv(s) && Revoked(s) && !Mute(s, socket)
    ensures Unaided(events, socket) && |events| <= 5 && Run(s, events).settled
  {
    hide Inv, Revoked, Run, CycleSpent;
    if !CycleSpent(s) {
      events := UnspentCycleSettles(s);
      OwnIsUnaided(events, socket);
    } else if Job(false) in s.resyncAnswered {
      events := HeldSettles(s);
    } else if s.resyncWaiting > 0 {
      events := PendingSettles(s);
    } else {
      events := JoiningSettles(s);
    }
  }

  /**
    * Exactly which started, unsettled monitors never settle unless they are aborted: the revoked ones
    * whose cycle is spent and for whose handlers no terminal job is left.
    */
  lemma NeverSettlesIff(s: State, socket: bool)
    requires Inv(s) && s.started && !s.settled
    ensures NeverSettles(s, socket) <==> Stopped(s) && Mute(s, socket)
  {
    hide Inv, Mute, Run, Unaided, Stopped;
    if !Stopped(s) {
      var events := CanAlwaysSettle(s);
      OwnIsUnaided(events, socket);
      assert !NeverSettles(s, socket);
    } else if Mute(s, socket) {
      forall events | Unaided(events, socket) ensures !Run(s, events).settled {
        MuteForever(s, events, socket);
      }
    } else {
      var events := NotMuteSettles(s, socket);
      assert !NeverSettles(s, socket);
    }
  }

  /**
    * At the moment a live monitor is superseded: it will never settle unless it is aborted exactly when
    * its cycle is before its `finally`, or has an active job for its answer, received or resumable, and
    * no resynchronization handler has or gets a terminal one.
    */
  lemma SupersededNeverSettlesIff(s: State, socket: bool)
    requires Inv(s) && Live(s)
    ensures NeverSettles(Next(s, Supersede), socket) <==>
      && (|| s.recoveryCycle.Ending?
          || s.recoveryCycle == Answered(Job(true))
          || (s.recoveryCycle == Fetching && s.recoveryRequest == Returned(Job(true))))
      && Job(false) !in s.resyncAnswered
      && (s.recoveryRequest == Returned(Job(false)) ==> s.resyncWaiting == 0 && !socket)
  {
    hide NeverSettles;
    SupersedeKeepsInv(s);
    NeverSettlesIff(Next(s, Supersede), socket);
  }

  lemma RunEvent(s: State, events: seq<Event>, e: Event)
    requires Enabled(Run(s, events), e)
    ensures Run(s, events + [e]) == Next(Run(s, events), e)
  {
    hide Enabled, Next;
    RunConcat(s, events, [e]);
    assert [e][1..] == [];
    assert Run(Run(s, events), [e]) == Run(Next(Run(s, events), e), []);
  }

  function AnsweredRun(): seq<Event> {
    [Start(false), TimerFires, GetReturns(Job(true))]
  }

  lemma AnsweredState()
    ensures var s := Run(Initial(false, true), AnsweredRun());
      && Live(s) && s.recoveryCycle == Fetching && s.recoveryRequest == Returned(Job(true))
      && s.resyncAnswered == []
  {
  }

  lemma SupersedeRevokes(s: State)
    requires Live(s)
    ensures Enabled(s, Supersede) && Revoked(Next(s, Supersede))
  {
  }

  /** Such states are reached: superseded while an active snapshot is on its way to the body. */
  lemma SupersededWhileAnswered(socket: bool)
    ensures var s := Run(Initial(false, true), AnsweredRun() + [Supersede]);
      Revoked(s) && NeverSettles(s, socket)
  {
    hide Run, Initial, Inv, Live, Enabled, Next, NeverSettles, Revoked, AnsweredRun;
    var s := Run(Initial(false, true), AnsweredRun());
    AnsweredState();
    InitialInv(false, true);
    ReachableInv(Initial(false, true), AnsweredRun());
    SupersedeRevokes(s);
    RunEvent(Initial(false, true), AnsweredRun(), Supersede);
    SupersededNeverSettlesIff(s, socket);
  }

  // ---------- Inevitable settlement ----------

  /** Some run without an abort ends up unable to settle. */
  ghost predicate MayFallMute(s: State, socket: bool) {
    exists events :: Unaided(events, socket) && MuteAfter(s, events, socket)
  }

  predicate MuteAfter(s: State, events: seq<Event>, socket: bool) {
    !Run(s, events).settled && Mute(Run(s, events), socket)
  }

  /** Spent already but for a terminal job nobody waits for, or one timer away from an active answer. */
  predicate Losable(s: State) {
    && Job(false) !in s.resyncAnswered
    && (|| (CycleSpent(s) && (s.recoveryRequest == Returned(Job(false)) ==> s.resyncWaiting == 0))
        || (s.recoveryCycle == Idle && s.recoveryTimer.Some? && s.recoveryRequest == Returned(Job(true))))
  }

  lemma ClearKeepsSettling(s: State)
    requires Inv(s) && Revoked(s) && !Losable(s) && Enabled(s, RequestClears)
    ensures !Losable(Next(s, RequestClears))
  {
    RepeatHolds(s.recoveryRequest.outcome, s.resyncWaiting, Job(false));
    var t := Next(s, RequestClears);
    assert forall o | o in s.resyncAnswered :: o in t.resyncAnswered;
    assert forall o | o in Repeat(s.recoveryRequest.outcome, s.resyncWaiting) :: o in t.resyncAnswered;
  }

  lemma ResumeKeepsSettling(s: State, i: nat)
    requires Inv(s) && Revoked(s) && !Losable(s) && Enabled(s, ResyncResumes(i))
    ensures Next(s, ResyncResumes(i)).settled || !Losable(Next(s, ResyncResumes(i)))
  {
    hide RefreshWatchdog;
    RemovedKeeps(s.resyncAnswered, i, Job(false));
    RevokedSchedulesNothing(s.(resyncAnswered := s.resyncAnswered[..i] + s.resyncAnswered[i + 1..]), None);
  }

  lemma CycleKeepsSettling(s: State, e: Event)
    requires Inv(s) && Revoked(s) && !Losable(s) && Enabled(s, e)
    requires e.CycleResumes? || e.CycleEnds?
    ensures Next(s, e).settled || !Losable(Next(s, e))
  {
  }

  lemma AskingKeepsSettling(s: State, e: Event)
    requires Inv(s) && Revoked(s) && !Losable(s) && Enabled(s, e) && Asks(e)
    ensures !Losable(Next(s, e))
  {
  }

  lemma LittleKeepsSettling(s: State, t: State)
    requires !Losable(s)
    requires t == s.(recoveryAttempt := t.recoveryAttempt, sequenceGapPending := t.sequenceGapPending)
    ensures !Losable(t)
  {
  }

  lemma SettlingStep(s: State, e: Event)
    requires Inv(s) && Revoked(s) && !Losable(s) && Enabled(s, e) && e != Abort
    ensures Next(s, e).settled || (Revoked(Next(s, e)) && !Losable(Next(s, e)))
  {
    hide Inv, Revoked, Losable, Enabled, Next;
    RevokedStaysRevoked(s, e);
    if e == RequestClears {
      ClearKeepsSettling(s);
    } else if e.ResyncResumes? {
      ResumeKeepsSettling(s, e.index);
    } else if e.CycleResumes? || e.CycleEnds? {
      CycleKeepsSettling(s, e);
    } else if Schedules(e) {
      TrafficChangesLittle(s, e);
      LittleKeepsSettling(s, Next(s, e));
    } else {
      AskingKeepsSettling(s, e);
    }
  }

  lemma MuteIsLosable(s: State, socket: bool)
    requires Mute(s, socket)
    ensures Losable(s)
  {
  }

  lemma {:induction false} NeverFallsMute(s: State, events: seq<Event>, socket: bool)
    requires Inv(s) && Revoked(s) && !Losable(s) && Unaided(events, socket)
    ensures !MuteAfter(s, events, socket)
    decreases |events|
  {
    hide Inv, Revoked, Mute, Losable, Unaided, Enabled, Next;
    if events == [] {
      if Mute(s, socket) {
        MuteIsLosable(s, socket);
      }
    } else {
      UnaidedRest(events, socket);
      var t := if Enabled(s, events[0]) then Next(s, events[0]) else s;
      if Enabled(s, events[0]) {
        StepKeepsInv(s, events[0]);
        SettlingStep(s, events[0]);
      }
      if t.settled {
        SettledIsFinal(t, events[1..]);
      } else {
        NeverFallsMute(t, events[1..], socket);
      }
    }
  }

  lemma SettledIsFinal(s: State, events: seq<Event>)
    requires Inv(s) && s.settled
    ensures Run(s, events).settled
  {
    hide Run;
    SettledForever(s, events, s.resolved, s.rejected);
  }

  lemma FallsMute(s: State, socket: bool) returns (events: seq<Event>)
    requires Inv(s) && Revoked(s) && Losable(s)
    ensures Unaided(events, socket) && |events| <= 1 && MuteAfter(s, events, socket)
  {
    if Mute(s, socket) {
      events := [];
    } else {
      var e := if s.recoveryRequest == Returned(Job(false)) then RequestClears else TimerFires;
      LosableFalls(s, e, socket);
      hide Mute, Next, Losable;
      events := [e];
      assert Run(s, [e]) == Run(Next(s, e), []);
    }
  }

  lemma LosableFalls(s: State, e: Event, socket: bool)
    requires Inv(s) && Revoked(s) && Losable(s) && !Mute(s, socket)
    requires e == if s.recoveryRequest == Returned(Job(false)) then RequestClears else TimerFires
    ensures Enabled(s, e) && !Next(s, e).settled && Mute(Next(s, e), socket)
  {
  }

  /**
    * Whether a revoked monitor may yet lose its chance to settle: exactly when no handler holds a terminal
    * job and either its cycle is spent with nobody waiting for a terminal answer, or its timer may fire
    * before an active answer is cleared. In every other revoked state each unaided run leaves it
    * settled or still able to settle.
    */
  lemma MayFallMuteIff(s: State, socket: bool)
    requires Inv(s) && Revoked(s)
    ensures MayFallMute(s, socket) <==> Losable(s)
  {
    hide Inv, Revoked, Losable, MuteAfter, Unaided;
    if Losable(s) {
      var events := FallsMute(s, socket);
    } else {
      forall events | Unaided(events, socket) ensures !MuteAfter(s, events, socket) {
        NeverFallsMute(s, events, socket);
      }
    }
  }

  // ---------- Whose answer an urgent request gets ----------

  /** The shared request outstanding at the start is cleared somewhere along the run. */
  predicate ClearsDuring(s: State, events: seq<Event>)
    decreases |events|
  {
    events != [] &&
    if Enabled(s, events[0])
    then events[0] == RequestClears || ClearsDuring(Next(s, events[0]), events[1..])
    else ClearsDuring(s, events[1..])
  }

  /** GETs are numbered; a state that shares the GET it began with has issued no other. */
  predicate SharesOld(s: State, issued: nat) {
    s.recoveryRequest != NoRequest && s.getsIssued == issued
  }

  predicate WillBeNew(s: State, issued: nat) {
    s.getsIssued > issued || (s.recoveryRequest == NoRequest && s.getsIssued == issued)
  }

  lemma AgeStep(s: State, e: Event, issued: nat)
    requires Enabled(s, e)
    ensures WillBeNew(s, issued) ==> WillBeNew(Next(s, e), issued)
    ensures SharesOld(s, issued) ==>
      if e == RequestClears then WillBeNew(Next(s, e), issued) else SharesOld(Next(s, e), issued)
  {
    hide Next;
    if e.GetReturns? || e.RequestClears? {
      AnswerAges(s, e, issued);
    } else if e.ResyncRequired? || e.TimerFires? {
      AskingAges(s, e, issued);
    } else {
      SameRequest(s, e);
    }
  }

  lemma AnswerAges(s: State, e: Event, issued: nat)
    requires Enabled(s, e) && (e.GetReturns? || e.RequestClears?)
    ensures WillBeNew(s, issued) ==> WillBeNew(Next(s, e), issued)
    ensures SharesOld(s, issued) ==>
      if e == RequestClears then WillBeNew(Next(s, e), issued) else SharesOld(Next(s, e), issued)
  {
  }

  lemma AskingAges(s: State, e: Event, issued: nat)
    requires Enabled(s, e) && (e.ResyncRequired? || e.TimerFires?)
    ensures WillBeNew(s, issued) ==> WillBeNew(Next(s, e), issued)
    ensures SharesOld(s, issued) ==> SharesOld(Next(s, e), issued)
  {
    if e.ResyncRequired? {
      FetchAges(s, issued);
    } else {
      FetchAges(s.(recoveryTimer := None, recoveryTimerImmediate := false), issued);
    }
    hide FetchAuthoritative;
  }

  lemma FetchAges(s: State, issued: nat)
    ensures WillBeNew(s, issued) ==> FetchAuthoritative(s).getsIssued > issued
    ensures SharesOld(s, issued) ==> SharesOld(FetchAuthoritative(s), issued)
  {
  }

  predicate HandlesRequest(e: Event) {
    e.ResyncRequired? || e.TimerFires? || e.GetReturns? || e.RequestClears?
  }

  lemma ScheduleSameRequest(s: State, delay: Option<nat>)
    ensures ScheduleRecovery(s, delay).recoveryRequest == s.recoveryRequest
    ensures ScheduleRecovery(s, delay).getsIssued == s.getsIssued
  {
  }

  lemma SettleSameRequest(s: State, resolves: bool)
    ensures Settle(s, resolves).recoveryRequest == s.recoveryRequest
    ensures Settle(s, resolves).getsIssued == s.getsIssued
  {
  }

  lemma CycleSameRequest(s: State, e: Event)
    requires Enabled(s, e) && (e.CycleResumes? || e.CycleEnds?)
    ensures Next(s, e).recoveryRequest == s.recoveryRequest && Next(s, e).getsIssued == s.getsIssued
  {
    if e == CycleResumes {
      SettleSameRequest(NoteAnswer(s, s.recoveryCycle.outcome), s.recoveryCycle.outcome.Job?);
    } else {
      var idle := s.(recoveryCycle := Idle, immediateRecoveryPending := false);
      ScheduleSameRequest(idle, Some(0));
      ScheduleSameRequest(idle, None);
    }
    hide ScheduleRecovery, Settle;
  }

  lemma TrafficSameRequest(s: State, e: Event)
    requires Enabled(s, e) && (Schedules(e) || e.Start?)
    ensures Next(s, e).recoveryRequest == s.recoveryRequest && Next(s, e).getsIssued == s.getsIssued
  {
    hide ScheduleRecovery;
    ScheduleSameRequest(s, Some(0));
    ScheduleSameRequest(s.(sequenceGapPending := true), Some(0));
    ScheduleSameRequest(s.(recoveryAttempt := 0), None);
    if e.Start? {
      ScheduleSameRequest(s.(started := true), if e.socket then None else Some(0));
    }
  }

  lemma ResumeSameRequest(s: State, i: nat)
    requires Enabled(s, ResyncResumes(i))
    ensures var t := Next(s, ResyncResumes(i));
      t.recoveryRequest == s.recoveryRequest && t.getsIssued == s.getsIssued
  {
  }

  lemma RevokingSameRequest(s: State, e: Event)
    requires Enabled(s, e) && (e.Abort? || e.Supersede?)
    ensures Next(s, e).recoveryRequest == s.recoveryRequest && Next(s, e).getsIssued == s.getsIssued
  {
  }

  /** Whatever does not handle the shared request leaves it alone. */
  lemma SameRequest(s: State, e: Event)
    requires Enabled(s, e) && !HandlesRequest(e)
    ensures Next(s, e).recoveryRequest == s.recoveryRequest && Next(s, e).getsIssued == s.getsIssued
  {
    hide Enabled, Next;
    if Schedules(e) || e.Start? {
      TrafficSameRequest(s, e);
    } else if e.ResyncResumes? {
      ResumeSameRequest(s, e.index);
    } else if e.Abort? || e.Supersede? {
      RevokingSameRequest(s, e);
    } else {
      CycleSameRequest(s, e);
    }
  }

  lemma {:induction false} AgeOverRun(s: State, events: seq<Event>, issued: nat)
    ensures WillBeNew(s, issued) ==> WillBeNew(Run(s, events), issued)
    ensures SharesOld(s, issued) ==>
      if ClearsDuring(s, events) then WillBeNew(Run(s, events), issued) else SharesOld(Run(s, events), issued)
    decreases |events|
  {
    hide WillBeNew, SharesOld, Enabled, Next;
    if events != [] {
      if Enabled(s, events[0]) {
        AgeStep(s, events[0], issued);
        AgeOverRun(Next(s, events[0]), events[1..], issued);
      } else {
        AgeOverRun(s, events[1..], issued);
      }
    }
  }

  /** The cycle that a timer starts issues its own GET exactly when none is shared. */
  lemma CycleSharesUnlessCleared(s: State, issued: nat)
    requires Live(s) && Enabled(s, TimerFires) && s.recoveryCycle == Idle
    ensures var t := Next(s, TimerFires);
      && t.recoveryCycle == Fetching && t.recoveryRequest != NoRequest
      && (t.getsIssued == s.getsIssued + 1 <==> s.recoveryRequest == NoRequest)
      && (WillBeNew(s, issued) ==> t.getsIssued > issued)
      && (SharesOld(s, issued) ==> t.getsIssued == issued)
  {
  }

  lemma AgeAtRequest(s: State, e: Event)
    requires Enabled(s, e) && Urges(e)
    ensures if s.recoveryRequest == NoRequest then WillBeNew(Next(s, e), s.getsIssued)
            else SharesOld(Next(s, e), s.getsIssued)
  {
    hide Next;
    SameRequest(s, e);
  }

  /**
    * The cycle that serves an urgent request waits for a GET issued after the request if and only if no
    * GET was shared when it was made, or that one was cleared before the immediate timer fired.
    */
  lemma UrgentAnswerIsNewIff(s: State, e: Event, after: seq<Event>)
    requires Inv(s) && Enabled(s, e) && Urges(e) && TimerFires !in after
    requires Live(Run(Next(s, e), after)) && Enabled(Run(Next(s, e), after), TimerFires)
    ensures var serving := Next(Run(Next(s, e), after), TimerFires);
      && serving.recoveryCycle == Fetching && serving.recoveryRequest != NoRequest
      && (serving.getsIssued > s.getsIssued <==>
            s.recoveryRequest == NoRequest || ClearsDuring(Next(s, e), after))
  {
    hide Inv, Live, Enabled, Next, Run, WillBeNew, SharesOld, Urges, UrgentHeld, ClearsDuring;
    var t := Run(Next(s, e), after);
    StepKeepsInv(s, e);
    ReachableInv(Next(s, e), after);
    TimerMeansIdle(t);
    AgeAtRequest(s, e);
    AgeOverRun(Next(s, e), after, s.getsIssued);
    CycleSharesUnlessCleared(t, s.getsIssued);
  }

  /** An older answer does serve a request: the cycle joins the GET of an earlier resynchronization. */
  lemma UrgentMayJoinAnOlderGet()
    ensures var s := Run(Initial(false, true), [ResyncRequired, Start(true), Urgent]);
      && s.getsIssued == 1 && Live(s) && Enabled(s, TimerFires)
      && Next(s, TimerFires).recoveryCycle == Fetching && Next(s, TimerFires).getsIssued == 1
  {
  }

  lemma TimerMeansIdle(s: State)
    requires Inv(s) && Enabled(s, TimerFires)
    ensures s.recoveryCycle == Idle
  {
  }
}
