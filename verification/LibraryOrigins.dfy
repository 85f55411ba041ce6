/**
  * Where the pages of a library come from: which refresh, asked for which app, the list on screen began
  * with, and which refresh's paging its cursor and each load-more continue.
  */
module LibraryOrigins {
  import opened Wrappers
  import opened JsText
  import opened Pagination
  import opened LibrarySpec
  import opened LibraryRuns

  datatype Origin = Origin(epoch: nat, app: Option<Text>)

  /** The library with a record of those origins; nothing in it is read by the library itself. */
  datatype Traced = Traced(
    lib: State,
    asked: Option<Text>,           // the app the refresh of this epoch asked for
    awaiting: bool,                // it has not been answered
    shown: Origin,                 // what the list began with
    cursorOf: Origin,              // whose paging the cursor continues
    sources: map<Ticket, Origin>   // whose cursor each load-more took
  )

  function TracedInitial(app: Option<Text>): Traced {
    Traced(Initial(app), app, false, Origin(0, app), Origin(0, app), map[])
  }

  /** The load-more button has an effect: there is a cursor, and no other load-more holds the lock. */
  predicate Startable(s: State) {
    s.nextPageToken.Some? && !s.loadMore
  }

  function NewTicket(s: State): Ticket {
    Ticket(s.refreshEpoch, s.loadMoreEpoch + 1, s.app)
  }

  function AnswerRefresh(t: Traced, epoch: nat, aborted: bool, answer: Answer, adapt: Adapt): Traced {
    // A refresh is answered once.
    if epoch == t.lib.refreshEpoch && !t.awaiting then t
    else
      var lib := Next(t.lib, RefreshAnswers(epoch, aborted, answer), adapt);
      if epoch != t.lib.refreshEpoch then t.(lib := lib)
      else if aborted || answer.Failed? then t.(lib := lib, awaiting := false)
      else
        var origin := Origin(epoch, t.asked);
        t.(lib := lib, awaiting := false, shown := origin, cursorOf := origin)
  }

  function AnswerMore(t: Traced, ticket: Ticket, answer: Answer, adapt: Adapt): Traced {
    var lib := Next(t.lib, MoreAnswers(ticket, answer), adapt);
    if ticket in t.lib.inFlight && Current(t.lib, ticket) && answer.Page? && ticket in t.sources
    then t.(lib := lib, cursorOf := t.sources[ticket])
    else t.(lib := lib)
  }

  function SelectTraced(t: Traced, app: Option<Text>, refreshes: bool): Traced {
    var lib := SelectApp(t.lib, app, refreshes);
    if app == t.lib.app && !refreshes then t
    else
      // An emptied list is as good as one of the new app.
      var cleared := t.(lib := lib, shown := Origin(t.shown.epoch, app));
      if Refreshes(app, refreshes) then cleared.(asked := app, awaiting := true) else cleared
  }

  function Step(t: Traced, e: Event, adapt: Adapt): Traced {
    match e
    case RefreshStarts(app) => t.(lib := Next(t.lib, e, adapt), asked := app, awaiting := true)
    case RefreshAnswers(epoch, aborted, answer) => AnswerRefresh(t, epoch, aborted, answer, adapt)
    case MoreStarts =>
      t.(lib := Next(t.lib, e, adapt),
         sources := if Startable(t.lib) then t.sources[NewTicket(t.lib) := t.cursorOf] else t.sources)
    case MoreAnswers(ticket, answer) => AnswerMore(t, ticket, answer, adapt)
    case HistoryCleared =>
      t.(lib := Next(t.lib, e, adapt), asked := t.lib.app, awaiting := false,
         shown := Origin(t.lib.refreshEpoch + 1, t.lib.app))
    case AppSelected(app, refreshes) => SelectTraced(t, app, refreshes)
    case _ => t.(lib := Next(t.lib, e, adapt))
  }

  function TracedRun(t: Traced, events: seq<Event>, adapt: Adapt): Traced
    decreases |events|
  {
    if events == [] then t else TracedRun(Step(t, events[0], adapt), events[1..], adapt)
  }

  // ---------- Pages of another refresh ----------

  /** A page that would be merged on arrival although it continues another refresh than the list's. */
  predicate Foreign(t: Traced, ticket: Ticket) {
    && ticket in t.lib.inFlight && Current(t.lib, ticket)
    && ticket in t.sources && t.sources[ticket] != t.shown
  }

  predicate Consistent(t: Traced) {
    && TicketsConsistent(t.lib)
    && t.shown.epoch <= t.lib.refreshEpoch
    && (t.awaiting ==> t.shown.epoch < t.lib.refreshEpoch)
  }

  /** A load-more that is outdated, or that continues the list on screen with nothing left to replace it. */
  predicate Safe(t: Traced, ticket: Ticket) {
    && ticket.loadMoreEpoch <= t.lib.loadMoreEpoch
    && (|| ticket.refreshEpoch < t.lib.refreshEpoch
        || (ticket.refreshEpoch == t.lib.refreshEpoch && SafeNow(t, ticket)))
  }

  predicate SafeNow(t: Traced, ticket: Ticket) {
    if ticket.app != t.lib.app then t.lib.app.None?
    else !t.awaiting && (ticket in t.lib.inFlight ==> ticket in t.sources && t.sources[ticket] == t.shown)
  }

  predicate Clean(t: Traced) {
    && Consistent(t)
    && (t.lib.nextPageToken.Some? ==> t.cursorOf == t.shown)
    && (forall k | k in t.lib.inFlight :: Safe(t, k))
  }

  /** The event does not start a load-more under an unanswered refresh. */
  predicate Patient(t: Traced, e: Event) {
    e.MoreStarts? && Startable(t.lib) ==> !t.awaiting
  }

  predicate AllPatient(t: Traced, events: seq<Event>, adapt: Adapt)
    decreases |events|
  {
    events == [] || (Patient(t, events[0]) && AllPatient(Step(t, events[0], adapt), events[1..], adapt))
  }

  /** The library takes its own step, or none when a refresh is answered again. */
  lemma StepLibrary(t: Traced, e: Event, adapt: Adapt)
    ensures Step(t, e, adapt).lib == Next(t.lib, e, adapt) || Step(t, e, adapt).lib == t.lib
  {
  }

  predicate EpochsFit(t: Traced) {
    t.shown.epoch <= t.lib.refreshEpoch && (t.awaiting ==> t.shown.epoch < t.lib.refreshEpoch)
  }

  lemma StepKeepsEpochs(t: Traced, e: Event, adapt: Adapt)
    requires EpochsFit(t)
    ensures EpochsFit(Step(t, e, adapt))
  {
    if e.RefreshAnswers? || e.MoreAnswers? {
      AnswerTouchesLittle(t.lib, e, adapt);
      hide Next;
    }
    hide WithoutRow;
  }

  lemma StepConsistent(t: Traced, e: Event, adapt: Adapt)
    requires Consistent(t)
    ensures Consistent(Step(t, e, adapt))
  {
    StepKeepsTickets(t.lib, e, adapt);
    StepLibrary(t, e, adapt);
    StepKeepsEpochs(t, e, adapt);
    hide TicketsConsistent, Step;
  }

  lemma SelectKeepsSafe(t: Traced, app: Option<Text>, refreshes: bool, ticket: Ticket)
    requires Consistent(t) && Safe(t, ticket)
    ensures Safe(SelectTraced(t, app, refreshes), ticket)
  {
  }

  lemma RefreshAnswerKeepsSafe(t: Traced, epoch: nat, aborted: bool, answer: Answer, ticket: Ticket, adapt: Adapt)
    requires Safe(t, ticket)
    ensures Safe(AnswerRefresh(t, epoch, aborted, answer, adapt), ticket)
  {
  }

  lemma MoreAnswerKeepsSafe(t: Traced, other: Ticket, answer: Answer, ticket: Ticket, adapt: Adapt)
    requires Safe(t, ticket)
    ensures Safe(AnswerMore(t, other, answer, adapt), ticket)
  {
    AnswerTouchesLittle(t.lib, MoreAnswers(other, answer), adapt);
    hide Next;
  }

  predicate TouchesLittle(s: State, u: State) {
    && u.refreshEpoch == s.refreshEpoch && u.loadMoreEpoch == s.loadMoreEpoch && u.app == s.app
    && u.inFlight <= s.inFlight
  }

  lemma RefreshTouchesLittle(s: State, answer: Answer, adapt: Adapt)
    ensures TouchesLittle(s, FinishRefresh(s, answer, adapt))
  {
  }

  lemma MoreTouchesLittle(s: State, ticket: Ticket, answer: Answer, adapt: Adapt)
    ensures TouchesLittle(s, FinishMore(s, ticket, answer, adapt))
  {
  }

  /** An answer changes neither the epochs nor the app, and starts nothing. */
  lemma AnswerTouchesLittle(s: State, e: Event, adapt: Adapt)
    requires e.RefreshAnswers? || e.MoreAnswers?
    ensures TouchesLittle(s, Next(s, e, adapt))
  {
    if e.RefreshAnswers? {
      RefreshTouchesLittle(s, e.answer, adapt);
    } else {
      MoreTouchesLittle(s, e.ticket, e.answer, adapt);
    }
    hide FinishRefresh, FinishMore;
  }

  lemma StartsKeepSafe(t: Traced, e: Event, ticket: Ticket, adapt: Adapt)
    requires Safe(t, ticket) && (e.RefreshStarts? || e.MoreStarts? || e.HistoryCleared?)
    ensures Safe(Step(t, e, adapt), ticket)
  {
  }

  lemma EditsKeepSafe(t: Traced, e: Event, ticket: Ticket, adapt: Adapt)
    requires Safe(t, ticket) && (e.Stored? || e.Removed? || e.PinSet?)
    ensures Safe(Step(t, e, adapt), ticket)
  {
  }

  lemma SafeStep(t: Traced, e: Event, ticket: Ticket, adapt: Adapt)
    requires Consistent(t) && Safe(t, ticket)
    ensures Safe(Step(t, e, adapt), ticket)
  {
    hide Consistent, Safe, Next, SelectTraced, AnswerRefresh, AnswerMore;
    if e.AppSelected? {
      SelectKeepsSafe(t, e.app, e.refreshes, ticket);
    } else if e.RefreshAnswers? {
      RefreshAnswerKeepsSafe(t, e.epoch, e.aborted, e.answer, ticket, adapt);
    } else if e.MoreAnswers? {
      MoreAnswerKeepsSafe(t, e.ticket, e.answer, ticket, adapt);
    } else if e.RefreshStarts? || e.MoreStarts? || e.HistoryCleared? {
      StartsKeepSafe(t, e, ticket, adapt);
    } else {
      EditsKeepSafe(t, e, ticket, adapt);
    }
  }

  lemma {:induction false} SafeForever(t: Traced, events: seq<Event>, ticket: Ticket, adapt: Adapt)
    requires Consistent(t) && Safe(t, ticket)
    ensures Safe(TracedRun(t, events, adapt), ticket)
    decreases |events|
  {
    hide Consistent, Safe, Step;
    if events != [] {
      StepConsistent(t, events[0], adapt);
      SafeStep(t, events[0], ticket, adapt);
      SafeForever(Step(t, events[0], adapt), events[1..], ticket, adapt);
    }
  }

  lemma SafeIsNotForeign(t: Traced, ticket: Ticket)
    requires Safe(t, ticket)
    ensures !Foreign(t, ticket)
  {
  }

  /** A load-more started when no refresh is unanswered is safe. */
  lemma PatientStartIsSafe(t: Traced, adapt: Adapt)
    requires Clean(t) && Startable(t.lib) && !t.awaiting
    ensures Safe(Step(t, MoreStarts, adapt), NewTicket(t.lib))
  {
  }

  lemma StepKeepsCursor(t: Traced, e: Event, adapt: Adapt)
    requires Clean(t)
    ensures var u := Step(t, e, adapt); u.lib.nextPageToken.Some? ==> u.cursorOf == u.shown
  {
    hide TicketsConsistent, StoreAll, MergeDisplayPage, Rows, WithoutRow;
  }

  lemma InFlightGrowsByStarts(s: State, e: Event, adapt: Adapt)
    ensures forall k | k in Next(s, e, adapt).inFlight ::
      k in s.inFlight || (e.MoreStarts? && Startable(s) && k == NewTicket(s))
  {
  }

  lemma StepInFlight(t: Traced, e: Event, adapt: Adapt)
    ensures forall k | k in Step(t, e, adapt).lib.inFlight ::
      k in t.lib.inFlight || (e.MoreStarts? && Startable(t.lib) && k == NewTicket(t.lib))
  {
    InFlightGrowsByStarts(t.lib, e, adapt);
    hide TakeToken, StoreAll, MergeDisplayPage, Rows, WithoutRow;
  }

  lemma CleanStep(t: Traced, e: Event, adapt: Adapt)
    requires Clean(t) && Patient(t, e)
    ensures Clean(Step(t, e, adapt))
  {
    hide Consistent, Safe, Step;
    StepConsistent(t, e, adapt);
    StepKeepsCursor(t, e, adapt);
    StepInFlight(t, e, adapt);
    forall k | k in Step(t, e, adapt).lib.inFlight ensures Safe(Step(t, e, adapt), k) {
      if k in t.lib.inFlight {
        SafeStep(t, e, k, adapt);
      } else {
        PatientStartIsSafe(t, adapt);
      }
    }
  }

  lemma {:induction false} CleanForever(t: Traced, events: seq<Event>, adapt: Adapt)
    requires Clean(t) && AllPatient(t, events, adapt)
    ensures Clean(TracedRun(t, events, adapt))
    decreases |events|
  {
    hide Clean, Patient, Step;
    if events != [] {
      CleanStep(t, events[0], adapt);
      CleanForever(Step(t, events[0], adapt), events[1..], adapt);
    }
  }

  /**
    * In every run that starts no load-more under an unanswered refresh, each page that is merged continues
    * the refresh the list on screen began with, and so does the cursor.
    */
  lemma PatientRunsStayClean(app: Option<Text>, events: seq<Event>, adapt: Adapt)
    requires AllPatient(TracedInitial(app), events, adapt)
    ensures var t := TracedRun(TracedInitial(app), events, adapt);
      && (t.lib.nextPageToken.Some? ==> t.cursorOf == t.shown)
      && forall k :: !Foreign(t, k)
  {
    CleanForever(TracedInitial(app), events, adapt);
    var t := TracedRun(TracedInitial(app), events, adapt);
    forall k ensures !Foreign(t, k) {
      if k in t.lib.inFlight {
        SafeIsNotForeign(t, k);
      }
    }
  }

  /** An early load-more is overtaken by the answer of the refresh it was started under. */
  lemma EarlyStartBecomesForeign(t: Traced, adapt: Adapt)
    requires Clean(t) && Startable(t.lib) && t.awaiting
    ensures var u := Step(t, MoreStarts, adapt);
      Foreign(Step(u, RefreshAnswers(t.lib.refreshEpoch, false, Page([], None)), adapt), NewTicket(t.lib))
  {
  }

  predicate ForeignAfter(t: Traced, events: seq<Event>, ticket: Ticket, adapt: Adapt) {
    Foreign(TracedRun(t, events, adapt), ticket)
  }

  /** In some run its page is merged, on arrival, into a list of another refresh. */
  ghost predicate MayTurnForeign(t: Traced, ticket: Ticket, adapt: Adapt) {
    exists events :: ForeignAfter(t, events, ticket, adapt)
  }

  lemma OneEvent(t: Traced, e: Event, adapt: Adapt)
    ensures TracedRun(t, [e], adapt) == Step(t, e, adapt)
  {
  }

  lemma EarlyMayTurnForeign(t: Traced, adapt: Adapt)
    requires Clean(t) && Startable(t.lib) && t.awaiting
    ensures MayTurnForeign(Step(t, MoreStarts, adapt), NewTicket(t.lib), adapt)
  {
    hide Clean, Startable, Step, Foreign, TracedRun;
    var e := RefreshAnswers(t.lib.refreshEpoch, false, Page([], None));
    EarlyStartBecomesForeign(t, adapt);
    OneEvent(Step(t, MoreStarts, adapt), e, adapt);
    assert ForeignAfter(Step(t, MoreStarts, adapt), [e], NewTicket(t.lib), adapt);
  }

  lemma PatientNeverTurnsForeign(t: Traced, adapt: Adapt)
    requires Clean(t) && Startable(t.lib) && !t.awaiting
    ensures !MayTurnForeign(Step(t, MoreStarts, adapt), NewTicket(t.lib), adapt)
  {
    var u, ticket := Step(t, MoreStarts, adapt), NewTicket(t.lib);
    PatientStartIsSafe(t, adapt);
    StepConsistent(t, MoreStarts, adapt);
    hide Step, Foreign, Safe, Consistent, TracedRun;
    forall events ensures !ForeignAfter(u, events, ticket, adapt) {
      SafeForever(u, events, ticket, adapt);
      SafeIsNotForeign(TracedRun(u, events, adapt), ticket);
    }
  }

  /**
    * From a clean state, a load-more started now can come to be merged into a list of another refresh if
    * and only if a refresh is unanswered.
    */
  lemma LoadMoreTurnsForeignIff(t: Traced, adapt: Adapt)
    requires Clean(t) && Startable(t.lib)
    ensures MayTurnForeign(Step(t, MoreStarts, adapt), NewTicket(t.lib), adapt) <==> t.awaiting
  {
    hide Clean, Startable, Step, MayTurnForeign;
    if t.awaiting {
      EarlyMayTurnForeign(t, adapt);
    } else {
      PatientNeverTurnsForeign(t, adapt);
    }
  }

  lemma RunStep(t: Traced, e: Event, rest: seq<Event>, adapt: Adapt)
    ensures TracedRun(t, [e] + rest, adapt) == TracedRun(Step(t, e, adapt), rest, adapt)
  {
  }

  /** The two refreshes, with the second still unanswered when the load-more of the first page starts. */
  function EarlyRun(app: Option<Text>, first: seq<Record>, a: Text, second: seq<Record>, b: Text,
                    more: seq<Record>, c: Text): seq<Event>
  {
    [RefreshStarts(app)] + ([RefreshAnswers(1, false, Page(first, Some(a)))] + ([RefreshStarts(app)]
    + ([MoreStarts] + ([RefreshAnswers(2, false, Page(second, Some(b)))]
    + ([MoreAnswers(Ticket(2, 3, app), Page(more, Some(c)))] + [])))))
  }

  predicate Visible(token: Text) {
    Normalized(Some(token)) == Some(token)
  }

  /** It ends with the first refresh's page in the second's list, and with its cursor instead of the second's. */
  lemma EarlyLoadMoreMixesPages(app: Option<Text>, first: seq<Record>, a: Text, second: seq<Record>, b: Text,
                                more: seq<Record>, c: Text, adapt: Adapt)
    requires Visible(a) && Visible(b) && Visible(c) && b != c
    ensures var t := TracedRun(TracedInitial(app), EarlyRun(app, first, a, second, b, more, c), adapt);
      && t.lib.items == MergeDisplayPage(Rows(second, adapt), more, adapt)
      && t.lib.nextPageToken == Some(c)
      && t.shown.epoch == 2 && t.cursorOf.epoch == 1
  {
    hide MergeDisplayPage, Rows, StoreAll, Normalized;
    var t0 := TracedInitial(app);
    var t1 := Step(t0, RefreshStarts(app), adapt);
    var t2 := Step(t1, RefreshAnswers(1, false, Page(first, Some(a))), adapt);
    var t3 := Step(t2, RefreshStarts(app), adapt);
    var t4 := Step(t3, MoreStarts, adapt);
    var t5 := Step(t4, RefreshAnswers(2, false, Page(second, Some(b))), adapt);
    var t6 := Step(t5, MoreAnswers(Ticket(2, 3, app), Page(more, Some(c))), adapt);
    assert t4.lib.inFlight == {Ticket(2, 3, app)};
    assert t6.lib.nextPageToken == Some(c);
    EarlyRunSteps(app, first, a, second, b, more, c, adapt, t1, t2, t3, t4, t5, t6);
  }

  lemma EarlyRunSteps(app: Option<Text>, first: seq<Record>, a: Text, second: seq<Record>, b: Text,
                      more: seq<Record>, c: Text, adapt: Adapt,
                      t1: Traced, t2: Traced, t3: Traced, t4: Traced, t5: Traced, t6: Traced)
    requires t1 == Step(TracedInitial(app), RefreshStarts(app), adapt)
    requires t2 == Step(t1, RefreshAnswers(1, false, Page(first, Some(a))), adapt)
    requires t3 == Step(t2, RefreshStarts(app), adapt)
    requires t4 == Step(t3, MoreStarts, adapt)
    requires t5 == Step(t4, RefreshAnswers(2, false, Page(second, Some(b))), adapt)
    requires t6 == Step(t5, MoreAnswers(Ticket(2, 3, app), Page(more, Some(c))), adapt)
    ensures TracedRun(TracedInitial(app), EarlyRun(app, first, a, second, b, more, c), adapt) == t6
  {
    hide Step, TracedInitial;
    var e5 := [MoreAnswers(Ticket(2, 3, app), Page(more, Some(c)))] + [];
    var e4 := [RefreshAnswers(2, false, Page(second, Some(b)))] + e5;
    var e3 := [MoreStarts] + e4;
    var e2 := [RefreshStarts(app)] + e3;
    var e1 := [RefreshAnswers(1, false, Page(first, Some(a)))] + e2;
    RunStep(TracedInitial(app), RefreshStarts(app), e1, adapt);
    RunStep(t1, RefreshAnswers(1, false, Page(first, Some(a))), e2, adapt);
    RunStep(t2, RefreshStarts(app), e3, adapt);
    RunStep(t3, MoreStarts, e4, adapt);
    RunStep(t4, RefreshAnswers(2, false, Page(second, Some(b))), e5, adapt);
    RunStep(t5, MoreAnswers(Ticket(2, 3, app), Page(more, Some(c))), [], adapt);
  }

  // ---------- Records of another app ----------

  /** The list on screen was asked for by the selected app. */
  predicate OfSelectedApp(t: Traced) {
    t.shown.app == t.lib.app
  }

  /** Answers, load-mores, edits, clears, and refreshes for that app; no change of app. */
  predicate SameApp(events: seq<Event>, app: Option<Text>) {
    forall i | 0 <= i < |events| ::
      !events[i].AppSelected? && (events[i].RefreshStarts? ==> events[i].app == app)
  }

  /** No unanswered refresh asked for another app. */
  predicate AsksForSelected(t: Traced) {
    t.awaiting ==> t.asked == t.lib.app
  }

  lemma AppOnlyBySelection(t: Traced, e: Event, adapt: Adapt)
    requires !e.AppSelected?
    ensures Next(t.lib, e, adapt).app == t.lib.app && Step(t, e, adapt).lib.app == t.lib.app
  {
    if e.RefreshAnswers? || e.MoreAnswers? {
      AnswerTouchesLittle(t.lib, e, adapt);
    } else {
      OthersKeepApp(t.lib, e, adapt);
    }
    hide Next;
  }

  lemma OthersKeepApp(s: State, e: Event, adapt: Adapt)
    requires !e.AppSelected? && !e.RefreshAnswers? && !e.MoreAnswers?
    ensures Next(s, e, adapt).app == s.app
  {
  }

  lemma SelectedStays(t: Traced, e: Event, adapt: Adapt)
    requires OfSelectedApp(t) && AsksForSelected(t)
    requires !e.AppSelected? && !e.RefreshStarts?
    ensures var u := Step(t, e, adapt); OfSelectedApp(u) && AsksForSelected(u)
  {
    AppOnlyBySelection(t, e, adapt);
    hide Next;
  }

  lemma SameAppStep(t: Traced, e: Event, adapt: Adapt)
    requires OfSelectedApp(t) && AsksForSelected(t)
    requires !e.AppSelected? && (e.RefreshStarts? ==> e.app == t.lib.app)
    ensures var u := Step(t, e, adapt); u.lib.app == t.lib.app && OfSelectedApp(u) && AsksForSelected(u)
  {
    AppOnlyBySelection(t, e, adapt);
    if !e.RefreshStarts? {
      SelectedStays(t, e, adapt);
    }
    hide Next, AnswerRefresh, AnswerMore, SelectTraced;
  }

  lemma {:induction false} SameAppForever(t: Traced, events: seq<Event>, adapt: Adapt)
    requires OfSelectedApp(t) && AsksForSelected(t) && SameApp(events, t.lib.app)
    ensures OfSelectedApp(TracedRun(t, events, adapt))
    decreases |events|
  {
    hide OfSelectedApp, AsksForSelected, Step;
    if events != [] {
      SameAppStep(t, events[0], adapt);
      assert forall i | 0 <= i < |events| - 1 :: events[1..][i] == events[i + 1];
      SameAppForever(Step(t, events[0], adapt), events[1..], adapt);
    }
  }

  lemma AnswerBringsOtherApp(t: Traced, adapt: Adapt)
    requires t.awaiting && t.asked != t.lib.app
    ensures !OfSelectedApp(Step(t, RefreshAnswers(t.lib.refreshEpoch, false, Page([], None)), adapt))
  {
  }

  predicate LeavesAppAfter(t: Traced, events: seq<Event>, adapt: Adapt) {
    SameApp(events, t.lib.app) && !OfSelectedApp(TracedRun(t, events, adapt))
  }

  ghost predicate MayLeaveApp(t: Traced, adapt: Adapt) {
    exists events :: LeavesAppAfter(t, events, adapt)
  }

  /**
    * A list of the selected app can become another app's without any change of app if and only if a
    * refresh that asked for another app is unanswered: answers are fenced by their epoch alone.
    */
  lemma ListLeavesAppIff(t: Traced, adapt: Adapt)
    requires OfSelectedApp(t)
    ensures MayLeaveApp(t, adapt) <==> t.awaiting && t.asked != t.lib.app
  {
    hide OfSelectedApp, TracedRun, Step;
    if t.awaiting && t.asked != t.lib.app {
      var e := RefreshAnswers(t.lib.refreshEpoch, false, Page([], None));
      AnswerBringsOtherApp(t, adapt);
      OneEvent(t, e, adapt);
      assert LeavesAppAfter(t, [e], adapt);
    } else {
      forall events ensures !LeavesAppAfter(t, events, adapt) {
        if SameApp(events, t.lib.app) {
          SameAppForever(t, events, adapt);
        }
      }
    }
  }

  /** Asks for the selected app, and leaves no refresh behind when falling back to no app. */
  predicate Loyal(t: Traced, e: Event) {
    && (e.RefreshStarts? ==> e.app == t.lib.app)
    && (e.AppSelected? && !Refreshes(e.app, e.refreshes) && e.app != t.lib.app ==> !t.awaiting)
  }

  predicate AllLoyal(t: Traced, events: seq<Event>, adapt: Adapt)
    decreases |events|
  {
    events == [] || (Loyal(t, events[0]) && AllLoyal(Step(t, events[0], adapt), events[1..], adapt))
  }

  lemma LoyalStep(t: Traced, e: Event, adapt: Adapt)
    requires OfSelectedApp(t) && AsksForSelected(t)
    ensures var u := Step(t, e, adapt); OfSelectedApp(u) && (AsksForSelected(u) <==> Loyal(t, e))
  {
    if !e.AppSelected? && !e.RefreshStarts? {
      SelectedStays(t, e, adapt);
      hide OfSelectedApp, AsksForSelected, Step;
    }
    hide AnswerRefresh, AnswerMore;
  }

  lemma {:induction false} LoyalRunsShowSelectedApp(t: Traced, events: seq<Event>, adapt: Adapt)
    requires OfSelectedApp(t) && AsksForSelected(t) && AllLoyal(t, events, adapt)
    ensures OfSelectedApp(TracedRun(t, events, adapt)) && AsksForSelected(TracedRun(t, events, adapt))
    decreases |events|
  {
    hide OfSelectedApp, AsksForSelected, Loyal, Step;
    if events != [] {
      LoyalStep(t, events[0], adapt);
      LoyalRunsShowSelectedApp(Step(t, events[0], adapt), events[1..], adapt);
    }
  }

  /** A fallback to no app starts no refresh, so the old app's answer still fills the emptied list. */
  lemma FallbackShowsOldApp(app: Text, page: seq<Record>, adapt: Adapt)
    ensures var t := TracedRun(TracedInitial(Some(app)),
                               [RefreshStarts(Some(app))] + ([AppSelected(None, false)]
                               + ([RefreshAnswers(1, false, Page(page, None))] + [])), adapt);
      t.lib.app == None && t.lib.items == Rows(page, adapt) && t.shown.app == Some(app)
  {
    hide Rows, StoreAll;
    var answer := RefreshAnswers(1, false, Page(page, None));
    var t0 := TracedInitial(Some(app));
    var t1 := Step(t0, RefreshStarts(Some(app)), adapt);
    var t2 := Step(t1, AppSelected(None, false), adapt);
    var t3 := Step(t2, answer, adapt);
    assert t3.lib.items == Rows(page, adapt);
    RunStep(t0, RefreshStarts(Some(app)), [AppSelected(None, false)] + ([answer] + []), adapt);
    RunStep(t1, AppSelected(None, false), [answer] + [], adapt);
    RunStep(t2, answer, [], adapt);
  }

  /** A refresh with an older bootstrap replaces the selected app's records by those of its own app. */
  lemma OlderBootstrapShowsItsApp(earlier: Text, app: Text, page: seq<Record>, adapt: Adapt)
    ensures var t := TracedRun(TracedInitial(Some(app)),
                               [RefreshStarts(Some(earlier))]
                               + ([RefreshAnswers(1, false, Page(page, None))] + []), adapt);
      t.lib.app == Some(app) && t.lib.items == Rows(page, adapt) && t.shown.app == Some(earlier)
  {
    hide Rows, StoreAll;
    var answer := RefreshAnswers(1, false, Page(page, None));
    var t0 := TracedInitial(Some(app));
    var t1 := Step(t0, RefreshStarts(Some(earlier)), adapt);
    var t2 := Step(t1, answer, adapt);
    assert t2.lib.items == Rows(page, adapt);
    RunStep(t0, RefreshStarts(Some(earlier)), [answer] + [], adapt);
    RunStep(t1, answer, [], adapt);
  }
}
