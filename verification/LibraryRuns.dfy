/** The record map and the display list agree in every reachable state of a library. */
module LibraryRuns {
  import opened Wrappers
  import opened JsText
  import opened LibrarySpec

  predicate DistinctRows(rows: seq<Row>) {
    forall i, j | 0 <= i < j < |rows| :: rows[i].id != rows[j].id
  }

  predicate DistinctRecords(page: seq<Record>) {
    forall i, j | 0 <= i < j < |page| :: page[i].id != page[j].id
  }

  /** The same ids, no row twice, and each row the display form of its record. */
  ghost predicate Agree(records: map<Text, Record>, items: seq<Row>, adapt: Adapt) {
    && DistinctRows(items)
    && RowIds(items) == records.Keys
    && (forall k | k in records :: records[k].id == k)
    && (forall r | r in items :: r.id in records && r == adapt(records[r.id]))
  }

  // ---------- List and map operations ----------

  lemma {:induction false} StoreAllLooksUp(records: map<Text, Record>, page: seq<Record>)
    ensures StoreAll(records, page).Keys == records.Keys + RecordIds(page)
    ensures forall k | k in StoreAll(records, page) ::
      StoreAll(records, page)[k] == match LastWithId(page, k) case Some(r) => r case None => records[k]
  {
    if page != [] {
      var front, last := page[..|page| - 1], page[|page| - 1];
      StoreAllLooksUp(records, front);
      assert page == front + [last];
      assert RecordIds(page) == RecordIds(front) + {last.id};
    }
  }

  lemma SnocIds(rows: seq<Row>, row: Row)
    ensures RowIds(rows + [row]) == RowIds(rows) + {row.id}
  {
  }

  lemma SnocRecordIds(page: seq<Record>, last: Record)
    ensures RecordIds(page + [last]) == RecordIds(page) + {last.id}
  {
  }

  lemma {:induction false} NewRowsAre(existing: set<Text>, page: seq<Record>, adapt: Adapt)
    requires KeepsIds(adapt)
    ensures RowIds(NewRows(existing, page, adapt)) == RecordIds(page) - existing
  {
    if page != [] {
      var front, last := page[..|page| - 1], page[|page| - 1];
      NewRowsAre(existing, front, adapt);
      assert page == front + [last];
      SnocRecordIds(front, last);
      var rows := NewRows(existing, front, adapt);
      SnocIds(rows, adapt(last));
      assert rows + [] == rows;
    }
  }

  lemma {:induction false} NewRowComesFrom(existing: set<Text>, page: seq<Record>, adapt: Adapt, row: Row)
    returns (p: Record)
    requires row in NewRows(existing, page, adapt)
    ensures p in page && row == adapt(p)
  {
    var front, last := page[..|page| - 1], page[|page| - 1];
    if row in NewRows(existing, front, adapt) {
      p := NewRowComesFrom(existing, front, adapt, row);
    } else {
      p := last;
    }
  }

  /** Distinct ids, except that records already listed may repeat. */
  predicate DistinctBeyond(existing: set<Text>, page: seq<Record>) {
    forall i, j | 0 <= i < j < |page| && page[i].id == page[j].id :: page[i].id in existing
  }

  lemma {:induction false} NewRowsDistinct(existing: set<Text>, page: seq<Record>, adapt: Adapt)
    requires KeepsIds(adapt)
    ensures DistinctRows(NewRows(existing, page, adapt)) <==> DistinctBeyond(existing, page)
  {
    if page != [] {
      var front, last := page[..|page| - 1], page[|page| - 1];
      NewRowsDistinct(existing, front, adapt);
      NewRowsAre(existing, front, adapt);
      var rows := NewRows(existing, front, adapt);
      if last.id in existing {
        assert rows + [] == rows;
        assert DistinctBeyond(existing, page) <==> DistinctBeyond(existing, front);
      } else {
        var all := rows + [adapt(last)];
        assert DistinctRows(all) <==> DistinctRows(rows) && last.id !in RowIds(rows) by {
          SnocDistinct(rows, adapt(last));
        }
        assert DistinctBeyond(existing, page) <==> DistinctBeyond(existing, front) && last.id !in RecordIds(front) by {
          SnocBeyond(existing, front, last);
          assert page == front + [last];
        }
      }
    }
  }

  lemma RowIdsHas(rows: seq<Row>, i: nat)
    requires i < |rows|
    ensures rows[i].id in RowIds(rows)
  {
  }

  lemma RecordIdsHas(page: seq<Record>, i: nat)
    requires i < |page|
    ensures page[i].id in RecordIds(page)
  {
  }

  lemma SnocDistinct(rows: seq<Row>, row: Row)
    ensures DistinctRows(rows + [row]) <==> DistinctRows(rows) && row.id !in RowIds(rows)
  {
    var all := rows + [row];
    assert all[|rows|] == row;
    forall i: nat | i < |rows| ensures all[i] == rows[i] && rows[i].id in RowIds(rows) {
      RowIdsHas(rows, i);
    }
    if DistinctRows(all) {
      forall i, j | 0 <= i < j < |rows| ensures rows[i].id != rows[j].id {
        assert all[i].id != all[j].id;
      }
      forall i | 0 <= i < |rows| ensures rows[i].id != row.id {
        assert all[i].id != all[|rows|].id;
      }
    }
  }

  lemma SnocBeyond(existing: set<Text>, front: seq<Record>, last: Record)
    requires last.id !in existing
    ensures DistinctBeyond(existing, front + [last])
       <==> DistinctBeyond(existing, front) && last.id !in RecordIds(front)
  {
    var all := front + [last];
    assert all[|front|] == last;
    forall i: nat | i < |front| ensures all[i] == front[i] && front[i].id in RecordIds(front) {
      RecordIdsHas(front, i);
    }
    if DistinctBeyond(existing, all) {
      forall i, j | 0 <= i < j < |front| && front[i].id == front[j].id ensures front[i].id in existing {
        assert all[i].id == all[j].id;
      }
      forall i | 0 <= i < |front| ensures front[i].id != last.id {
        assert all[i] == front[i];
      }
    }
  }

  lemma AppendDistinct(a: seq<Row>, b: seq<Row>)
    requires RowIds(a) !! RowIds(b)
    ensures DistinctRows(a + b) <==> DistinctRows(a) && DistinctRows(b)
    ensures RowIds(a + b) == RowIds(a) + RowIds(b)
  {
    var c := a + b;
    forall i: nat | i < |a| ensures a[i].id in RowIds(a) {
      RowIdsHas(a, i);
    }
    forall i: nat | i < |b| ensures b[i].id in RowIds(b) {
      RowIdsHas(b, i);
    }
    if DistinctRows(c) {
      forall i, j | 0 <= i < j < |a| ensures a[i].id != a[j].id {
        assert c[i].id != c[j].id;
      }
      forall i, j | 0 <= i < j < |b| ensures b[i].id != b[j].id {
        assert c[|a| + i].id != c[|a| + j].id;
      }
    }
    if DistinctRows(a) && DistinctRows(b) {
      forall i, j | 0 <= i < j < |c| ensures c[i].id != c[j].id {
        assert i < |a| ==> c[i].id in RowIds(a);
        assert j >= |a| ==> c[j] == b[j - |a|] && c[j].id in RowIds(b);
        assert i >= |a| ==> c[i] == b[i - |a|];
      }
    }
    forall k | k in RowIds(a) + RowIds(b) ensures k in RowIds(c) {
      if k in RowIds(a) {
        var r :| r in a && r.id == k;
        assert r in c;
      } else {
        var r :| r in b && r.id == k;
        assert r in c;
      }
    }
  }

  lemma UpdatedRowsKeepIds(current: seq<Row>, page: seq<Record>, adapt: Adapt)
    requires KeepsIds(adapt)
    ensures var rows := UpdatedRows(current, page, adapt);
      && RowIds(rows) == RowIds(current)
      && (forall i | 0 <= i < |current| :: rows[i].id == current[i].id)
      && (DistinctRows(rows) <==> DistinctRows(current))
  {
  }

  /**
    * Merging a page into a list of distinct rows gives distinct rows exactly when the page
    * repeats no id that the list did not have; the client itself does not check that.
    */
  lemma MergeIsDistinct(current: seq<Row>, page: seq<Record>, adapt: Adapt)
    requires KeepsIds(adapt) && DistinctRows(current)
    ensures DistinctRows(MergeDisplayPage(current, page, adapt)) <==> DistinctBeyond(RowIds(current), page)
    ensures RowIds(MergeDisplayPage(current, page, adapt)) == RowIds(current) + RecordIds(page)
  {
    UpdatedRowsKeepIds(current, page, adapt);
    NewRowsAre(RowIds(current), page, adapt);
    NewRowsDistinct(RowIds(current), page, adapt);
    AppendDistinct(UpdatedRows(current, page, adapt), NewRows(RowIds(current), page, adapt));
  }

  lemma {:induction false} DistinctLookup(page: seq<Record>, p: Record)
    requires DistinctRecords(page) && p in page
    ensures LastWithId(page, p.id) == Some(p)
  {
  }

  /** Of the records with an id that was not listed, the lookup finds the only one. */
  lemma BeyondLookup(existing: set<Text>, page: seq<Record>, p: Record)
    requires DistinctBeyond(existing, page) && p in page && p.id !in existing
    ensures LastWithId(page, p.id) == Some(p)
  {
  }

  lemma MergedRowsMatch(records: map<Text, Record>, items: seq<Row>, page: seq<Record>, adapt: Adapt)
    requires KeepsIds(adapt) && Agree(records, items, adapt) && DistinctBeyond(RowIds(items), page)
    ensures forall r | r in MergeDisplayPage(items, page, adapt) ::
      r.id in StoreAll(records, page) && r == adapt(StoreAll(records, page)[r.id])
  {
    StoreAllLooksUp(records, page);
    var all := StoreAll(records, page);
    var rows := UpdatedRows(items, page, adapt);
    forall r | r in MergeDisplayPage(items, page, adapt) ensures r.id in all && r == adapt(all[r.id]) {
      if r in rows {
        var i :| 0 <= i < |rows| && rows[i] == r;
        assert items[i] in items;
        UpdatedRowsKeepIds(items, page, adapt);
      } else {
        var p := NewRowComesFrom(RowIds(items), page, adapt, r);
        NewRowsAre(RowIds(items), page, adapt);
        assert r.id in RowIds(NewRows(RowIds(items), page, adapt));
        BeyondLookup(RowIds(items), page, p);
      }
    }
  }

  /** Map and list merge one page into agreement exactly when it repeats no id new to the list. */
  lemma MergeAgrees(records: map<Text, Record>, items: seq<Row>, page: seq<Record>, adapt: Adapt)
    requires KeepsIds(adapt) && Agree(records, items, adapt)
    ensures Agree(StoreAll(records, page), MergeDisplayPage(items, page, adapt), adapt)
       <==> DistinctBeyond(RowIds(items), page)
  {
    MergeIsDistinct(items, page, adapt);
    if DistinctBeyond(RowIds(items), page) {
      StoreAllLooksUp(records, page);
      MergedRowsMatch(records, items, page, adapt);
    }
  }

  /** A refreshed map and list agree. */
  lemma FreshListAgrees(page: seq<Record>, adapt: Adapt)
    requires KeepsIds(adapt) && DistinctRecords(page)
    ensures Agree(StoreAll(map[], page), Rows(page, adapt), adapt)
  {
    StoreAllLooksUp(map[], page);
    var rows := Rows(page, adapt);
    forall i | 0 <= i < |page| ensures rows[i].id == page[i].id && page[i] in page {
    }
    forall r | r in rows ensures r.id in RecordIds(page) && r == adapt(StoreAll(map[], page)[r.id]) {
      var i :| 0 <= i < |rows| && rows[i] == r;
      DistinctLookup(page, page[i]);
    }
    forall k | k in RecordIds(page) ensures k in RowIds(rows) {
      var i :| 0 <= i < |page| && page[i].id == k;
      assert rows[i] in rows;
    }
  }

  /** A refreshed list has distinct rows exactly when the server's page repeats no id, pinned record or not. */
  lemma RefreshIsDistinct(pinned: Option<Record>, page: seq<Record>, adapt: Adapt)
    requires KeepsIds(adapt)
    ensures DistinctRows(Rows(WithPinned(pinned, page), adapt)) <==> DistinctRecords(page)
  {
    var listed := WithPinned(pinned, page);
    if DistinctRecords(page) {
      PinnedStaysDistinct(pinned, page);
    }
    if DistinctRows(Rows(listed, adapt)) {
      var offset := |listed| - |page|;
      forall i, j | 0 <= i < j < |page| ensures page[i].id != page[j].id {
        assert listed[offset + i] == page[i] && listed[offset + j] == page[j];
        assert Rows(listed, adapt)[offset + i].id != Rows(listed, adapt)[offset + j].id;
      }
    }
  }

  lemma {:induction false} WithoutRowIs(rows: seq<Row>, id: Text)
    ensures RowIds(WithoutRow(rows, id)) == RowIds(rows) - {id}
    ensures forall r | r in WithoutRow(rows, id) :: r in rows && r.id != id
    ensures DistinctRows(rows) ==> DistinctRows(WithoutRow(rows, id))
  {
    if rows != [] {
      var front, last := rows[..|rows| - 1], rows[|rows| - 1];
      WithoutRowIs(front, id);
      assert rows == front + [last];
      SnocDistinct(front, last);
      SnocDistinct(WithoutRow(front, id), last);
      SnocIds(front, last);
      SnocIds(WithoutRow(front, id), last);
      assert WithoutRow(front, id) + [] == WithoutRow(front, id);
    }
  }

  // ---------- The library ----------

  predicate TicketsConsistent(s: State) {
    && (forall t | t in s.inFlight :: t.refreshEpoch <= s.refreshEpoch && t.loadMoreEpoch <= s.loadMoreEpoch)
    && (forall t, u | t in s.inFlight && u in s.inFlight && t.loadMoreEpoch == u.loadMoreEpoch :: t == u)
    // A load-more of this refresh epoch holds the lock, so there is at most one.
    && (forall t | t in s.inFlight && t.refreshEpoch == s.refreshEpoch ::
          s.loadMore && t.loadMoreEpoch == s.loadMoreEpoch)
  }

  ghost predicate Inv(s: State, adapt: Adapt) {
    Agree(s.records, s.items, adapt) && TicketsConsistent(s)
  }

  /** The page of an answer that is taken repeats no id that matters: any in a refresh, a new one in a merge. */
  predicate PageFits(s: State, e: Event) {
    match e
    case RefreshAnswers(epoch, aborted, Page(page, _)) =>
      !aborted && epoch == s.refreshEpoch ==> DistinctRecords(page)
    case MoreAnswers(ticket, Page(page, _)) =>
      ticket in s.inFlight && Current(s, ticket) ==> DistinctBeyond(RowIds(s.items), page)
    case _ => true
  }

  predicate PagesFit(s: State, events: seq<Event>, adapt: Adapt)
    decreases |events|
  {
    events == [] || (PageFits(s, events[0]) && PagesFit(Next(s, events[0], adapt), events[1..], adapt))
  }

  /** Map and list agree now and after each event. */
  ghost predicate AgreesThroughout(s: State, events: seq<Event>, adapt: Adapt)
    decreases |events|
  {
    && Agree(s.records, s.items, adapt)
    && (events == [] || AgreesThroughout(Next(s, events[0], adapt), events[1..], adapt))
  }

  lemma PinnedStaysDistinct(pinned: Option<Record>, page: seq<Record>)
    requires DistinctRecords(page)
    ensures DistinctRecords(WithPinned(pinned, page))
  {
  }

  lemma RemoveKeepsAgree(s: State, id: Text, adapt: Adapt)
    requires KeepsIds(adapt) && Agree(s.records, s.items, adapt)
    ensures Agree(Remove(s, id).records, Remove(s, id).items, adapt)
  {
    WithoutRowIs(s.items, id);
  }

  lemma PrependAgrees(records: map<Text, Record>, items: seq<Row>, record: Record, adapt: Adapt)
    requires KeepsIds(adapt) && Agree(records, items, adapt) && record.id !in records
    ensures Agree(records[record.id := record], [adapt(record)] + items, adapt)
  {
  }

  lemma StoreKeepsAgree(s: State, record: Record, adapt: Adapt)
    requires KeepsIds(adapt) && Agree(s.records, s.items, adapt)
    ensures Agree(Store(s, record, adapt).records, Store(s, record, adapt).items, adapt)
  {
    hide Agree;
    RemoveKeepsAgree(s, record.id, adapt);
    PrependAgrees(Remove(s, record.id).records, WithoutRow(s.items, record.id), record, adapt);
    assert Remove(s, record.id).records[record.id := record] == s.records[record.id := record];
  }

  lemma RefreshAgrees(s: State, answer: Answer, adapt: Adapt)
    requires KeepsIds(adapt) && Agree(s.records, s.items, adapt)
    ensures var t := FinishRefresh(s, answer, adapt);
      Agree(t.records, t.items, adapt) <==> (answer.Page? ==> DistinctRecords(answer.items))
  {
    if answer.Page? {
      var pinned := PinnedItem(s.pin, s.records);
      RefreshIsDistinct(pinned, answer.items, adapt);
      if DistinctRecords(answer.items) {
        PinnedStaysDistinct(pinned, answer.items);
        FreshListAgrees(WithPinned(pinned, answer.items), adapt);
      }
    }
  }

  lemma ApplyAgrees(s: State, answer: Answer, adapt: Adapt)
    requires KeepsIds(adapt) && Agree(s.records, s.items, adapt)
    ensures var t := ApplyMore(s, answer, adapt);
      Agree(t.records, t.items, adapt) <==> (answer.Page? ==> DistinctBeyond(RowIds(s.items), answer.items))
  {
    if answer.Page? {
      MergeAgrees(s.records, s.items, answer.items, adapt);
    }
  }

  lemma SelectKeepsTickets(s: State, app: Option<Text>, refreshes: bool)
    requires TicketsConsistent(s)
    ensures TicketsConsistent(SelectApp(s, app, refreshes))
  {
  }

  lemma FinishKeepsTickets(s: State, ticket: Ticket, answer: Answer, adapt: Adapt)
    requires TicketsConsistent(s) && ticket in s.inFlight
    ensures TicketsConsistent(FinishMore(s, ticket, answer, adapt))
  {
  }

  lemma StepKeepsTickets(s: State, e: Event, adapt: Adapt)
    requires TicketsConsistent(s)
    ensures TicketsConsistent(Next(s, e, adapt))
  {
    hide StoreAll, Rows, WithoutRow, FinishMore, SelectApp;
    if e.AppSelected? {
      SelectKeepsTickets(s, e.app, e.refreshes);
    } else if e.MoreAnswers? && e.ticket in s.inFlight {
      FinishKeepsTickets(s, e.ticket, e.answer, adapt);
    }
  }

  /** One step keeps the agreement exactly when its page fits. */
  lemma StepAgrees(s: State, e: Event, adapt: Adapt)
    requires KeepsIds(adapt) && Agree(s.records, s.items, adapt)
    ensures var t := Next(s, e, adapt); Agree(t.records, t.items, adapt) <==> PageFits(s, e)
  {
    hide Agree, FinishRefresh, ApplyMore, Store, Remove;
    EmptyAgrees(adapt);
    match e {
      case RefreshAnswers(_, _, answer) =>
        RefreshAgrees(s, answer, adapt);
      case MoreAnswers(ticket, answer) =>
        ApplyAgrees(s.(inFlight := s.inFlight - {ticket}), answer, adapt);
      case Stored(record) =>
        StoreKeepsAgree(s, record, adapt);
      case Removed(id) =>
        RemoveKeepsAgree(s, id, adapt);
      case _ =>
    }
  }

  lemma EmptyAgrees(adapt: Adapt)
    ensures Agree(map[], [], adapt)
  {
  }

  /**
    * Through any interleaving of refreshes, load-mores, pinning, edits, clears and app changes, the record
    * map and the display list always hold the same ids, no row twice, and each row as the display form
    * of its record, if and only if every page that is taken fits.
    */
  lemma {:induction false} AgreesThroughoutIff(s: State, events: seq<Event>, adapt: Adapt)
    requires KeepsIds(adapt) && Agree(s.records, s.items, adapt)
    ensures AgreesThroughout(s, events, adapt) <==> PagesFit(s, events, adapt)
    decreases |events|
  {
    hide Agree, PageFits, Next;
    if events != [] {
      var t := Next(s, events[0], adapt);
      StepAgrees(s, events[0], adapt);
      if PageFits(s, events[0]) {
        AgreesThroughoutIff(t, events[1..], adapt);
      } else {
        Disagrees(t, events[1..], adapt);
      }
    }
  }

  lemma Disagrees(s: State, events: seq<Event>, adapt: Adapt)
    requires !Agree(s.records, s.items, adapt)
    ensures !AgreesThroughout(s, events, adapt)
  {
  }

  /** The invariant of every run whose pages fit; at most one load-more of the current epoch is in flight. */
  lemma {:induction false} ReachableInv(s: State, events: seq<Event>, adapt: Adapt)
    requires KeepsIds(adapt) && Inv(s, adapt) && PagesFit(s, events, adapt)
    ensures Inv(Run(s, events, adapt), adapt)
    decreases |events|
  {
    hide Agree, TicketsConsistent, PageFits, Next;
    if events != [] {
      StepAgrees(s, events[0], adapt);
      StepKeepsTickets(s, events[0], adapt);
      ReachableInv(Next(s, events[0], adapt), events[1..], adapt);
    }
  }

  lemma LibraryAgrees(app: Option<Text>, events: seq<Event>, adapt: Adapt)
    requires KeepsIds(adapt)
    ensures AgreesThroughout(Initial(app), events, adapt) <==> PagesFit(Initial(app), events, adapt)
    ensures PagesFit(Initial(app), events, adapt) ==> Inv(Run(Initial(app), events, adapt), adapt)
  {
    EmptyAgrees(adapt);
    AgreesThroughoutIff(Initial(app), events, adapt);
    if PagesFit(Initial(app), events, adapt) {
      ReachableInv(Initial(app), events, adapt);
    }
  }

  lemma {:induction false} TicketsStayConsistent(s: State, events: seq<Event>, adapt: Adapt)
    requires TicketsConsistent(s)
    ensures TicketsConsistent(Run(s, events, adapt))
    decreases |events|
  {
    hide TicketsConsistent, Next;
    if events != [] {
      StepKeepsTickets(s, events[0], adapt);
      TicketsStayConsistent(Next(s, events[0], adapt), events[1..], adapt);
    }
  }

  predicate PageDistinct(e: Event) {
    match e
    case RefreshAnswers(_, _, Page(page, _)) => DistinctRecords(page)
    case MoreAnswers(_, Page(page, _)) => DistinctRecords(page)
    case _ => true
  }

  /** A server that lists no id twice within one page always fits. */
  lemma {:induction false} DistinctPagesFit(s: State, events: seq<Event>, adapt: Adapt)
    requires forall i | 0 <= i < |events| :: PageDistinct(events[i])
    ensures PagesFit(s, events, adapt)
    decreases |events|
  {
    hide Next;
    if events != [] {
      assert forall i | 0 <= i < |events| - 1 :: events[1..][i] == events[i + 1];
      DistinctPagesFit(Next(s, events[0], adapt), events[1..], adapt);
    }
  }

  /** One page that repeats an id it is the first to bring puts two rows for one record in the list. */
  lemma RepeatedIdSplitsTheLibrary(s: State, page: seq<Record>, next: Option<Text>, adapt: Adapt)
    requires KeepsIds(adapt) && Agree(s.records, s.items, adapt)
    requires !DistinctBeyond(RowIds(s.items), page)
    ensures !DistinctRows(ApplyMore(s, Page(page, next), adapt).items)
  {
    MergeIsDistinct(s.items, page, adapt);
  }

  // ---------- Late answers ----------

  predicate StartsEpoch(e: Event) {
    e.RefreshStarts? || e.HistoryCleared? || (e.AppSelected? && e.refreshes)
  }

  lemma EpochsGrow(s: State, e: Event, adapt: Adapt)
    ensures Next(s, e, adapt).refreshEpoch >= s.refreshEpoch + (if StartsEpoch(e) then 1 else 0)
  {
    hide MergeDisplayPage, StoreAll, Rows, WithoutRow;
  }

  lemma {:induction false} EpochsGrowOverRuns(s: State, events: seq<Event>, adapt: Adapt)
    ensures Run(s, events, adapt).refreshEpoch >= s.refreshEpoch
    ensures (exists i | 0 <= i < |events| :: StartsEpoch(events[i])) ==>
      Run(s, events, adapt).refreshEpoch > s.refreshEpoch
    decreases |events|
  {
    hide Next;
    if events != [] {
      EpochsGrow(s, events[0], adapt);
      EpochsGrowOverRuns(Next(s, events[0], adapt), events[1..], adapt);
      assert forall i | 1 <= i < |events| :: events[i] == events[1..][i - 1];
    }
  }

  /**
    * A page requested before a refresh or a clear is never merged, nor a refresh overtaken by
    * another one applied, whatever happened in between.
    */
  lemma LateAnswersAreDropped(s: State, events: seq<Event>, ticket: Ticket, answer: Answer, aborted: bool, adapt: Adapt)
    requires exists i | 0 <= i < |events| :: StartsEpoch(events[i])
    requires ticket.refreshEpoch == s.refreshEpoch
    ensures var t := Run(s, events, adapt);
      && Next(t, MoreAnswers(ticket, answer), adapt) == t.(inFlight := t.inFlight - {ticket})
      && Next(t, RefreshAnswers(s.refreshEpoch, aborted, answer), adapt) == t
  {
    EpochsGrowOverRuns(s, events, adapt);
    var t := Run(s, events, adapt);
    assert ticket !in t.inFlight ==> t.inFlight - {ticket} == t.inFlight;
  }

  /** Two load-mores of the current epoch are never in flight together. */
  lemma OneLoadMoreAtATime(app: Option<Text>, events: seq<Event>, adapt: Adapt, a: Ticket, b: Ticket)
    requires var s := Run(Initial(app), events, adapt);
      && a in s.inFlight && b in s.inFlight && Current(s, a) && Current(s, b)
    ensures a == b
  {
    hide Run;
    TicketsStayConsistent(Initial(app), events, adapt);
  }
}
