/**
  * What the answers and edits of a paged library do to its rows, its records and its cursor, in the
  * library's own fields, and how long a pinned record is kept.
  */
module LibraryEffects {
  import opened Wrappers
  import opened JsText
  import opened Pagination
  import opened LibrarySpec
  import opened LibraryRuns

  // ---------- Vocabulary ----------

  predicate HasRow(items: seq<Row>, id: Text) {
    exists i :: 0 <= i < |items| && items[i].id == id
  }

  predicate Lists(page: seq<Record>, id: Text) {
    exists i :: 0 <= i < |page| && page[i].id == id
  }

  /** The page's last record with its id, the one that counts. */
  predicate LastOfItsId(page: seq<Record>, i: nat) {
    i < |page| && forall j | i < j < |page| :: page[j].id != page[i].id
  }

  /** The record that is pinned: one of its own, or the one listed under the pinned id. */
  predicate IsPinned(s: State, r: Record) {
    match s.pin
    case NoPin => false
    case PinnedId(id) => id in s.records && s.records[id] == r
    case PinnedRecord(record) => record == r
  }

  /** The places below `n` that are chosen, in increasing order. */
  ghost predicate Selects(places: seq<nat>, n: nat, chosen: nat -> bool) {
    && (forall m | 0 <= m < |places| :: places[m] < n && chosen(places[m]))
    && (forall l, m | 0 <= l < m < |places| :: places[l] < places[m])
    && (forall i: nat | i < n && chosen(i) :: i in places)
  }

  lemma SelectsMore(places: seq<nat>, n: nat, chosen: nat -> bool) returns (more: seq<nat>)
    requires Selects(places, n, chosen)
    ensures more == (if chosen(n) then places + [n] else places) && Selects(more, n + 1, chosen)
  {
    more := if chosen(n) then places + [n] else places;
    forall i: nat | i < n + 1 && chosen(i) ensures i in more {
      if i < n {
        assert i in places;
      } else {
        assert more[|places|] == n;
      }
    }
  }

  lemma SelectsAlike(places: seq<nat>, n: nat, chosen: nat -> bool, alike: nat -> bool)
    requires Selects(places, n, chosen) && forall i: nat | i < n :: chosen(i) <==> alike(i)
    ensures Selects(places, n, alike) && forall m | 0 <= m < |places| :: places[m] < n
  {
  }

  // ---------- The list and the map ----------

  /** The rows that are left are those of other ids, in their order. */
  lemma {:induction false} WithoutRowSelects(rows: seq<Row>, id: Text) returns (places: seq<nat>)
    ensures Selects(places, |rows|, (i: nat) => i < |rows| && rows[i].id != id)
    ensures |WithoutRow(rows, id)| == |places|
    ensures forall m | 0 <= m < |places| :: WithoutRow(rows, id)[m] == rows[places[m]]
    decreases |rows|
  {
    if rows == [] {
      places := [];
    } else {
      var n := |rows| - 1;
      var others := (i: nat) => i < |rows| && rows[i].id != id;
      var front := rows[..n];
      var before := WithoutRowSelects(front, id);
      SelectsAlike(before, n, (i: nat) => i < |front| && front[i].id != id, others);
      places := SelectsMore(before, n, others);
      assert WithoutRow(rows, id) == WithoutRow(front, id) + (if others(n) then [rows[n]] else []);
      hide WithoutRow, Selects;
      assert forall m | 0 <= m < |before| :: front[before[m]] == rows[before[m]];
    }
  }

  /** The rows that a page adds are those of its unlisted ids, in page order. */
  lemma {:induction false} NewRowsSelect(existing: set<Text>, page: seq<Record>, adapt: Adapt)
    returns (places: seq<nat>)
    ensures Selects(places, |page|, (i: nat) => i < |page| && page[i].id !in existing)
    ensures |NewRows(existing, page, adapt)| == |places|
    ensures forall m | 0 <= m < |places| :: NewRows(existing, page, adapt)[m] == adapt(page[places[m]])
    decreases |page|
  {
    if page == [] {
      places := [];
    } else {
      var n := |page| - 1;
      var unlisted := (i: nat) => i < |page| && page[i].id !in existing;
      var front := page[..n];
      var before := NewRowsSelect(existing, front, adapt);
      SelectsAlike(before, n, (i: nat) => i < |front| && front[i].id !in existing, unlisted);
      places := SelectsMore(before, n, unlisted);
      var added := if unlisted(n) then [adapt(page[n])] else [];
      assert NewRows(existing, page, adapt) == NewRows(existing, front, adapt) + added;
      hide NewRows, Selects;
    }
  }

  lemma {:induction false} LastIsFound(page: seq<Record>, i: nat)
    requires LastOfItsId(page, i)
    ensures LastWithId(page, page[i].id) == Some(page[i])
    decreases |page|
  {
    var n := |page| - 1;
    if i < n {
      assert page[n].id != page[i].id;
      LastIsFound(page[..n], i);
    }
  }

  lemma {:induction false} FoundIsLast(page: seq<Record>, id: Text) returns (i: nat)
    requires Lists(page, id)
    ensures LastOfItsId(page, i) && page[i].id == id && LastWithId(page, id) == Some(page[i])
    decreases |page|
  {
    var n := |page| - 1;
    if page[n].id == id {
      i := n;
    } else {
      var j :| 0 <= j < |page| && page[j].id == id;
      assert page[..n][j].id == id;
      i := FoundIsLast(page[..n], id);
    }
  }

  /** The map holds the last record of each id of the page and, for other ids, what it held. */
  predicate HoldsPage(before: map<Text, Record>, after: map<Text, Record>, page: seq<Record>) {
    && (forall id | id in before && !Lists(page, id) :: id in after && after[id] == before[id])
    && (forall id | id in after && !Lists(page, id) :: id in before)
    && (forall i: nat | i < |page| && LastOfItsId(page, i) :: page[i].id in after && after[page[i].id] == page[i])
  }

  lemma PageIsHeld(records: map<Text, Record>, page: seq<Record>)
    ensures HoldsPage(records, StoreAll(records, page), page)
    ensures forall i | 0 <= i < |page| :: page[i].id in StoreAll(records, page)
  {
    StoreAllLooksUp(records, page);
    var after := StoreAll(records, page);
    forall i | 0 <= i < |page| ensures page[i].id in after {
      RecordIdsHas(page, i);
    }
    forall i: nat | i < |page| && LastOfItsId(page, i) ensures page[i].id in after && after[page[i].id] == page[i] {
      LastIsFound(page, i);
      RecordIdsHas(page, i);
    }
    forall id | !Lists(page, id) ensures id !in RecordIds(page) && LastWithId(page, id).None? {
      ListsAgree(page, id);
    }
  }

  // ---------- A refresh ----------

  /** The rows are those of the page, in its order, from place `from` on. */
  predicate RowsOfPage(items: seq<Row>, from: nat, page: seq<Record>, adapt: Adapt) {
    |items| == from + |page| && forall i | 0 <= i < |page| :: items[from + i] == adapt(page[i])
  }

  lemma RefreshTaken(s: State, page: seq<Record>, next: Option<Text>, adapt: Adapt)
    ensures var t := Next(s, RefreshAnswers(s.refreshEpoch, false, Page(page, next)), adapt);
      var listed := WithPinned(PinnedItem(s.pin, s.records), page);
      t.available && t.items == Rows(listed, adapt) && t.records == StoreAll(map[], listed)
  {
    hide StoreAll, Rows, Normalized, WithPinned, PinnedItem;
  }

  /** Without a pinned record, or with one that it lists, a refresh shows the server's page in its order. */
  lemma RefreshShowsPage(s: State, page: seq<Record>, next: Option<Text>, adapt: Adapt)
    requires forall r | IsPinned(s, r) :: Lists(page, r.id)
    ensures var t := Next(s, RefreshAnswers(s.refreshEpoch, false, Page(page, next)), adapt);
      && t.available && RowsOfPage(t.items, 0, page, adapt) && HoldsPage(map[], t.records, page)
      && (forall i | 0 <= i < |page| :: page[i].id in t.records)
  {
    RefreshTaken(s, page, next, adapt);
    var pinned := PinnedItem(s.pin, s.records);
    if pinned.Some? {
      assert IsPinned(s, pinned.value);
      ListsAgree(page, pinned.value.id);
    }
    PageIsHeld(map[], page);
    hide StoreAll, Next, HoldsPage;
  }

  /**
    * A pinned record is never lost to a refresh: where the page does not list it, it goes before the
    * page's rows and is held as it was.
    */
  lemma RefreshKeepsPinned(s: State, r: Record, page: seq<Record>, next: Option<Text>, adapt: Adapt)
    requires IsPinned(s, r)
    ensures var t := Next(s, RefreshAnswers(s.refreshEpoch, false, Page(page, next)), adapt);
      && r.id in t.records && (forall i | 0 <= i < |page| :: page[i].id in t.records)
      && if Lists(page, r.id) then RowsOfPage(t.items, 0, page, adapt) && HoldsPage(map[], t.records, page)
         else && RowsOfPage(t.items, 1, page, adapt) && t.items[0] == adapt(r)
              && HoldsPage(map[], t.records, [r] + page) && t.records[r.id] == r
  {
    ListsAgree(page, r.id);
    if Lists(page, r.id) {
      assert forall other | IsPinned(s, other) :: other == r;
      RefreshShowsPage(s, page, next, adapt);
    } else {
      RefreshTaken(s, page, next, adapt);
      assert PinnedItem(s.pin, s.records) == Some(r);
      PageIsHeld(map[], [r] + page);
      PrependedIsHeld(r, page);
      PrependedRows(r, page, adapt);
    }
    hide *;
  }

  lemma PrependedRows(r: Record, page: seq<Record>, adapt: Adapt)
    ensures RowsOfPage(Rows([r] + page, adapt), 1, page, adapt) && Rows([r] + page, adapt)[0] == adapt(r)
  {
    var listed := [r] + page;
    assert listed[0] == r && forall i | 0 <= i < |page| :: listed[1 + i] == page[i];
  }

  lemma ListsAgree(page: seq<Record>, id: Text)
    ensures Lists(page, id) <==> id in RecordIds(page)
  {
  }

  lemma PrependedIsHeld(r: Record, page: seq<Record>)
    requires !Lists(page, r.id)
    ensures r.id in StoreAll(map[], [r] + page) && StoreAll(map[], [r] + page)[r.id] == r
    ensures forall i | 0 <= i < |page| :: page[i].id in StoreAll(map[], [r] + page)
  {
    var listed := [r] + page;
    forall j | 0 <= j < |page| ensures listed[j + 1] == page[j] && page[j].id != r.id {
      assert Lists(page, page[j].id);
    }
    StoreAllLooksUp(map[], listed);
    LastIsFound(listed, 0);
    hide StoreAll, Lists;
    forall i: nat | i < |listed| ensures listed[i].id in StoreAll(map[], listed) {
      RecordIdsHas(listed, i);
    }
    assert forall i | 0 <= i < |page| :: page[i].id == listed[i + 1].id;
    assert listed[0] == r;
  }

  /** An unavailable library is emptied; a failed refresh leaves it as it was but without a cursor. */
  lemma RefreshFails(s: State, adapt: Adapt)
    ensures Next(s, RefreshAnswers(s.refreshEpoch, false, Unavailable), adapt)
         == s.(records := map[], items := [], nextPageToken := None, available := false)
    ensures Next(s, RefreshAnswers(s.refreshEpoch, false, Failed), adapt)
         == s.(nextPageToken := None, available := false)
  {
  }

  /** A refresh that was aborted or overtaken changes nothing. */
  lemma OldRefreshChangesNothing(s: State, epoch: nat, aborted: bool, answer: Answer, adapt: Adapt)
    requires aborted || epoch != s.refreshEpoch
    ensures Next(s, RefreshAnswers(epoch, aborted, answer), adapt) == s
  {
  }

  // ---------- A load-more ----------

  /** Of a merged list: the rows it had, those that the page lists in their new form. */
  predicate KeepsPlaces(before: seq<Row>, after: seq<Row>, page: seq<Record>, adapt: Adapt) {
    && |before| <= |after|
    && (forall k | 0 <= k < |before| && !Lists(page, before[k].id) :: after[k] == before[k])
    && (forall k, i | 0 <= k < |before| && 0 <= i < |page| && LastOfItsId(page, i) && page[i].id == before[k].id ::
          after[k] == adapt(page[i]))
  }

  /**
    * A page under the current epoch and app leaves every row where it is, in its new form if the page
    * lists it, and appends the records at `places`: those the list did not have, in page order.
    */
  lemma MoreAppendsPage(s: State, ticket: Ticket, page: seq<Record>, next: Option<Text>, adapt: Adapt)
    returns (places: seq<nat>)
    requires ticket in s.inFlight && ticket.refreshEpoch == s.refreshEpoch && ticket.app == s.app
    ensures Selects(places, |page|, (i: nat) => i < |page| && !HasRow(s.items, page[i].id))
    ensures var t := Next(s, MoreAnswers(ticket, Page(page, next)), adapt);
      && KeepsPlaces(s.items, t.items, page, adapt) && |t.items| == |s.items| + |places|
      && (forall m | 0 <= m < |places| :: t.items[|s.items| + m] == adapt(page[places[m]]))
      && HoldsPage(s.records, t.records, page)
      && t.available == s.available
  {
    MoreTaken(s, ticket, page, next, adapt);
    hide StoreAll, HoldsPage, Next, UpdatedRows, NewRows;
    PageIsHeld(s.records, page);
    UpdatedRowsInPlace(s.items, page, adapt, NewRows(RowIds(s.items), page, adapt));
    var existing := RowIds(s.items);
    var unlisted := (i: nat) => i < |page| && !HasRow(s.items, page[i].id);
    places := NewRowsSelect(existing, page, adapt);
    forall i: nat | i < |page| ensures page[i].id in existing <==> HasRow(s.items, page[i].id) {
      RowsAgree(s.items, page[i].id);
    }
    SelectsAlike(places, |page|, (i: nat) => i < |page| && page[i].id !in existing, unlisted);
    hide Selects, HasRow, KeepsPlaces;
  }

  lemma MoreTaken(s: State, ticket: Ticket, page: seq<Record>, next: Option<Text>, adapt: Adapt)
    requires ticket in s.inFlight && ticket.refreshEpoch == s.refreshEpoch && ticket.app == s.app
    ensures var t := Next(s, MoreAnswers(ticket, Page(page, next)), adapt);
      && t.items == UpdatedRows(s.items, page, adapt) + NewRows(RowIds(s.items), page, adapt)
      && t.records == StoreAll(s.records, page) && t.available == s.available
  {
    hide StoreAll, Normalized, UpdatedRows, NewRows;
  }

  lemma UpdatedRowsInPlace(items: seq<Row>, page: seq<Record>, adapt: Adapt, added: seq<Row>)
    ensures KeepsPlaces(items, UpdatedRows(items, page, adapt) + added, page, adapt)
  {
    forall k | 0 <= k < |items| && !Lists(page, items[k].id)
      ensures LastWithId(page, items[k].id).None?
    {
      ListsAgree(page, items[k].id);
      NoneFound(page, items[k].id);
    }
    forall i: nat | LastOfItsId(page, i) ensures LastWithId(page, page[i].id) == Some(page[i]) {
      LastIsFound(page, i);
    }
    hide Lists, LastOfItsId, LastWithId;
  }

  lemma RowsAgree(items: seq<Row>, id: Text)
    ensures id in RowIds(items) <==> HasRow(items, id)
  {
  }

  lemma NoneFound(page: seq<Record>, id: Text)
    requires id !in RecordIds(page)
    ensures LastWithId(page, id).None?
  {
  }

  /** Neither does a failed or unavailable answer touch the rows and records, nor an old one anything. */
  lemma MoreFails(s: State, ticket: Ticket, answer: Answer, adapt: Adapt)
    requires ticket in s.inFlight
    ensures var t := Next(s, MoreAnswers(ticket, answer), adapt);
      var current := ticket.refreshEpoch == s.refreshEpoch && ticket.app == s.app;
      && t.inFlight == s.inFlight - {ticket}
      && t.loadMore == (s.loadMore && !(current && ticket.loadMoreEpoch == s.loadMoreEpoch))
      && (!current ==> t == s.(inFlight := s.inFlight - {ticket}))
      && (current && answer.Failed? ==>
            t == s.(inFlight := s.inFlight - {ticket}, loadMore := t.loadMore))
      && (current && answer.Unavailable? ==>
            t == s.(inFlight := s.inFlight - {ticket}, loadMore := t.loadMore, available := false,
                    nextPageToken := None))
  {
    hide StoreAll, MergeDisplayPage, Normalized;
  }

  // ---------- Cursors ----------

  /** The cursor that follows: trimmed, unless it is blank or was given before. */
  function CursorAfter(seen: set<Text>, token: Option<Text>): Option<Text> {
    if token.None? || Trim(token.value) == [] || Trim(token.value) in seen then None else Some(Trim(token.value))
  }

  /** Every taken page leaves the cursor after it and remembers it, so no cursor is followed twice. */
  lemma PagesLeaveCursor(s: State, ticket: Ticket, page: seq<Record>, next: Option<Text>, adapt: Adapt)
    requires ticket in s.inFlight && ticket.refreshEpoch == s.refreshEpoch && ticket.app == s.app
    ensures var t := Next(s, RefreshAnswers(s.refreshEpoch, false, Page(page, next)), adapt);
      var u := Next(s, MoreAnswers(ticket, Page(page, next)), adapt);
      var cursor := CursorAfter(s.pageTokens, next);
      var seen := s.pageTokens + (if cursor.Some? then {cursor.value} else {});
      t.nextPageToken == u.nextPageToken == cursor && t.pageTokens == u.pageTokens == seen
  {
    hide StoreAll, MergeDisplayPage, Trim, Rows;
  }

  // ---------- Edits ----------

  /** A stored record is held and shown first; the other rows keep their order. */
  lemma StoredIsFirst(s: State, record: Record, adapt: Adapt) returns (places: seq<nat>)
    requires KeepsIds(adapt)
    ensures Selects(places, |s.items|, (i: nat) => i < |s.items| && s.items[i].id != record.id)
    ensures var t := Next(s, Stored(record), adapt);
      && t == s.(items := t.items, records := s.records[record.id := record])
      && |t.items| == 1 + |places| && t.items[0] == adapt(record)
      && forall m | 0 <= m < |places| :: t.items[1 + m] == s.items[places[m]]
  {
    hide WithoutRow, Selects;
    places := WithoutRowSelects(s.items, record.id);
  }

  /** A removed record is gone from rows and records; the other rows keep their order. */
  lemma RemovedIsGone(s: State, id: Text, adapt: Adapt) returns (places: seq<nat>)
    ensures Selects(places, |s.items|, (i: nat) => i < |s.items| && s.items[i].id != id)
    ensures var t := Next(s, Removed(id), adapt);
      && t == s.(items := t.items, records := t.records)
      && |t.items| == |places| && (forall m | 0 <= m < |places| :: t.items[m] == s.items[places[m]])
      && (forall k :: k in t.records <==> k in s.records && k != id)
      && (forall k | k in t.records :: t.records[k] == s.records[k])
  {
    places := WithoutRowSelects(s.items, id);
  }

  /** Clearing the history and choosing another app empty the library, the app also frees the pin. */
  lemma ClearsEmpty(s: State, app: Option<Text>, refreshes: bool, adapt: Adapt)
    ensures var t := Next(s, HistoryCleared, adapt);
      && t.records == map[] && t.items == [] && t.nextPageToken.None? && !t.loadMore && t.pageTokens == {}
      && t.refreshEpoch > s.refreshEpoch && t.pin == s.pin && t.app == s.app
    ensures var t := Next(s, AppSelected(app, refreshes), adapt);
      if app == s.app && !refreshes then t == s
      else
        && t.app == app && t.records == map[] && t.items == [] && t.nextPageToken.None? && t.pin.NoPin?
        && (t.refreshEpoch > s.refreshEpoch <==> app.Some? || refreshes)
  {
  }

  // ---------- The pinned record is kept ----------

  function PinnedName(pin: Pin): Option<Text> {
    match pin
    case NoPin => None
    case PinnedId(id) => Some(id)
    case PinnedRecord(record) => Some(record.id)
  }

  /** The record with that id is held and shown. */
  predicate Kept(s: State, id: Text) {
    id in s.records && s.records[id].id == id && HasRow(s.items, id)
  }

  /** What empties the library or removes the record; anything else keeps it. */
  predicate Drops(s: State, e: Event, id: Text) {
    match e
    case Removed(other) => other == id
    case HistoryCleared => true
    case AppSelected(app, refreshes) => app != s.app || refreshes
    case RefreshAnswers(epoch, aborted, answer) => !aborted && epoch == s.refreshEpoch && answer.Unavailable?
    case _ => false
  }

  lemma MergeKeeps(records: map<Text, Record>, items: seq<Row>, page: seq<Record>, id: Text, adapt: Adapt)
    requires KeepsIds(adapt) && id in records && records[id].id == id && HasRow(items, id)
    ensures id in StoreAll(records, page) && StoreAll(records, page)[id].id == id
    ensures HasRow(MergeDisplayPage(items, page, adapt), id)
  {
    StoreAllLooksUp(records, page);
    var i :| 0 <= i < |items| && items[i].id == id;
    UpdatedRowsKeepIds(items, page, adapt);
    assert MergeDisplayPage(items, page, adapt)[i] == UpdatedRows(items, page, adapt)[i];
  }

  lemma LoadMoreKeeps(s: State, ticket: Ticket, answer: Answer, id: Text, adapt: Adapt)
    requires KeepsIds(adapt) && Kept(s, id)
    ensures Kept(Next(s, MoreAnswers(ticket, answer), adapt), id)
  {
    hide StoreAll, Normalized, MergeDisplayPage;
    if answer.Page? {
      MergeKeeps(s.records, s.items, answer.items, id, adapt);
    }
  }

  lemma PageShowsAndHolds(page: seq<Record>, id: Text, adapt: Adapt)
    requires KeepsIds(adapt) && Lists(page, id)
    ensures id in StoreAll(map[], page) && StoreAll(map[], page)[id].id == id && HasRow(Rows(page, adapt), id)
  {
    var i := FoundIsLast(page, id);
    PageIsHeld(map[], page);
    assert Rows(page, adapt)[i].id == id;
  }

  lemma RefreshKeeps(s: State, page: seq<Record>, next: Option<Text>, id: Text, adapt: Adapt)
    requires KeepsIds(adapt) && Kept(s, id) && PinnedName(s.pin) == Some(id)
    ensures Kept(Next(s, RefreshAnswers(s.refreshEpoch, false, Page(page, next)), adapt), id)
  {
    hide StoreAll, Rows, Normalized, Lists;
    var listed := WithPinned(PinnedItem(s.pin, s.records), page);
    assert Lists(listed, id) by {
      ListsAgree(page, id);
      ListsAgree(listed, id);
      assert id !in RecordIds(page) ==> listed[0].id == id;
    }
    PageShowsAndHolds(listed, id, adapt);
  }

  lemma EditsKeep(s: State, e: Event, id: Text, adapt: Adapt)
    requires KeepsIds(adapt) && Kept(s, id) && (e.Stored? || e.Removed?) && !Drops(s, e, id)
    ensures Kept(Next(s, e, adapt), id)
  {
    var i :| 0 <= i < |s.items| && s.items[i].id == id;
    if e.Removed? {
      var places := RemovedIsGone(s, e.id, adapt);
      assert i in places;
      var m :| 0 <= m < |places| && places[m] == i;
      assert Next(s, e, adapt).items[m].id == id;
    } else {
      var places := StoredIsFirst(s, e.record, adapt);
      var t := Next(s, e, adapt);
      if e.record.id == id {
        assert t.items[0].id == id;
      } else {
        assert i in places;
        var m :| 0 <= m < |places| && places[m] == i;
        assert t.items[1 + m].id == id;
      }
    }
  }

  /** Whatever the event, a pinned record is lost exactly when the event drops it. */
  lemma PinnedIsLostIff(s: State, e: Event, id: Text, adapt: Adapt)
    requires KeepsIds(adapt) && Kept(s, id) && PinnedName(s.pin) == Some(id)
    ensures Kept(Next(s, e, adapt), id) <==> !Drops(s, e, id)
  {
    hide StoreAll, Rows, Normalized, MergeDisplayPage, Store, Remove;
    if e.MoreAnswers? {
      LoadMoreKeeps(s, e.ticket, e.answer, id, adapt);
    } else if e.RefreshAnswers? && e.answer.Page? && !e.aborted && e.epoch == s.refreshEpoch {
      RefreshKeeps(s, e.answer.items, e.answer.nextPageToken, id, adapt);
    } else if (e.Stored? || e.Removed?) && !Drops(s, e, id) {
      EditsKeep(s, e, id, adapt);
    } else if e.Removed? {
      var _ := RemovedIsGone(s, id, adapt);
    }
  }

  lemma PinStays(s: State, e: Event, adapt: Adapt)
    requires !e.PinSet? && (e.AppSelected? ==> e.app == s.app && !e.refreshes)
    ensures Next(s, e, adapt).pin == s.pin
  {
    hide StoreAll, Rows, Normalized, MergeDisplayPage, WithoutRow;
  }

  /** No event of the run pins anything else or drops the record. */
  predicate Unharmed(s: State, events: seq<Event>, id: Text, adapt: Adapt)
    decreases |events|
  {
    events == []
    || (&& !Drops(s, events[0], id)
        && (events[0].PinSet? ==> PinnedName(events[0].pin) == Some(id))
        && Unharmed(Next(s, events[0], adapt), events[1..], id, adapt))
  }

  /**
    * A pinned record is never lost to a refresh, a load-more or an edit of another one: through any
    * run that keeps it pinned and neither removes it nor empties the library, it is held and shown.
    */
  lemma {:induction false} PinnedIsKept(s: State, events: seq<Event>, id: Text, adapt: Adapt)
    requires KeepsIds(adapt) && Kept(s, id) && PinnedName(s.pin) == Some(id)
    requires Unharmed(s, events, id, adapt)
    ensures var t := Run(s, events, adapt); Kept(t, id) && PinnedName(t.pin) == Some(id)
    decreases |events|
  {
    if events != [] {
      PinnedIsLostIff(s, events[0], id, adapt);
      if !events[0].PinSet? {
        PinStays(s, events[0], adapt);
      }
      hide Kept, MergeDisplayPage, StoreAll;
      PinnedIsKept(Next(s, events[0], adapt), events[1..], id, adapt);
    }
  }

  // ---------- An honest server is listed whole ----------

  function Joined(pages: seq<seq<Record>>): seq<Record> {
    if pages == [] then [] else Joined(pages[..|pages| - 1]) + pages[|pages| - 1]
  }

  /** No record is listed twice; a visible token, another one each time, leads to each page but the first. */
  ghost predicate Honest(pages: seq<seq<Record>>, token: nat -> Text) {
    && DistinctRecords(Joined(pages))
    && (forall k: nat | 0 < k < |pages| :: Trim(token(k)) != [])
    && (forall j: nat, k: nat | 0 < j < k < |pages| :: Trim(token(j)) != Trim(token(k)))
  }

  function TokenTo(pages: seq<seq<Record>>, k: nat, token: nat -> Text): Option<Text> {
    if k < |pages| then Some(token(k)) else None
  }

  /** From page `k` to the last one, each asked for and answered. */
  function MoreEvents(pages: seq<seq<Record>>, k: nat, token: nat -> Text, epoch: nat, loadMoreEpoch: nat,
                      app: Option<Text>): seq<Event>
    decreases |pages| - k
  {
    if k >= |pages| then []
    else
      [MoreStarts, MoreAnswers(Ticket(epoch, loadMoreEpoch + 1, app), Page(pages[k], TokenTo(pages, k + 1, token)))]
      + MoreEvents(pages, k + 1, token, epoch, loadMoreEpoch + 1, app)
  }

  /** The first `k` pages are listed and the cursor leads to the next one. */
  ghost predicate Following(s: State, pages: seq<seq<Record>>, k: nat, token: nat -> Text, adapt: Adapt) {
    && k <= |pages| && s.items == Rows(Joined(pages[..k]), adapt) && s.available && !s.loadMore
    && s.nextPageToken == (if k < |pages| then Some(Trim(token(k))) else None)
    && forall t | t in s.pageTokens :: exists j: nat :: 0 < j <= k && j < |pages| && t == Trim(token(j))
  }

  lemma {:induction false} UnlistedAreAppended(existing: set<Text>, page: seq<Record>, adapt: Adapt)
    requires forall i | 0 <= i < |page| :: page[i].id !in existing
    ensures NewRows(existing, page, adapt) == Rows(page, adapt)
    decreases |page|
  {
    if page != [] {
      UnlistedAreAppended(existing, page[..|page| - 1], adapt);
    }
  }

  /** A page of other ids is appended as it is. */
  lemma FreshPageIsAppended(done: seq<Record>, page: seq<Record>, adapt: Adapt)
    requires KeepsIds(adapt) && DistinctRecords(done + page)
    ensures UpdatedRows(Rows(done, adapt), page, adapt) + NewRows(RowIds(Rows(done, adapt)), page, adapt)
         == Rows(done + page, adapt)
  {
    var rows, all := Rows(done, adapt), done + page;
    forall i, j | 0 <= i < |page| && 0 <= j < |done| ensures page[i].id != rows[j].id {
      assert all[j].id != all[|done| + i].id;
    }
    UnlistedAreAppended(RowIds(rows), page, adapt);
    assert UpdatedRows(rows, page, adapt) == rows;
  }

  lemma {:induction false} PrefixIsDistinct(pages: seq<seq<Record>>, k: nat)
    requires k <= |pages| && DistinctRecords(Joined(pages))
    ensures DistinctRecords(Joined(pages[..k]))
    decreases |pages|
  {
    if k == |pages| {
      assert pages[..k] == pages;
    } else {
      var front := pages[..|pages| - 1];
      assert forall i | 0 <= i < |Joined(front)| :: Joined(pages)[i] == Joined(front)[i];
      PrefixIsDistinct(front, k);
      assert front[..k] == pages[..k];
    }
  }

  lemma HonestMore(s: State, pages: seq<seq<Record>>, k: nat, token: nat -> Text, adapt: Adapt) returns (t: State)
    requires KeepsIds(adapt) && Honest(pages, token) && 0 < k < |pages| && Following(s, pages, k, token, adapt)
    ensures var ticket := Ticket(s.refreshEpoch, s.loadMoreEpoch + 1, s.app);
      t == Next(Next(s, MoreStarts, adapt), MoreAnswers(ticket, Page(pages[k], TokenTo(pages, k + 1, token))), adapt)
    ensures Following(t, pages, k + 1, token, adapt)
    ensures t.refreshEpoch == s.refreshEpoch && t.loadMoreEpoch == s.loadMoreEpoch + 1 && t.app == s.app
  {
    var ticket := Ticket(s.refreshEpoch, s.loadMoreEpoch + 1, s.app);
    var started := Next(s, MoreStarts, adapt);
    var next := TokenTo(pages, k + 1, token);
    t := Next(started, MoreAnswers(ticket, Page(pages[k], next)), adapt);
    MoreTaken(started, ticket, pages[k], next, adapt);
    PagesLeaveCursor(started, ticket, pages[k], next, adapt);
    MoreFails(started, ticket, Page(pages[k], next), adapt);
    LoadMoreKeepsEpochs(started, ticket, Page(pages[k], next), adapt);
    PrefixIsDistinct(pages, k + 1);
    assert pages[..k + 1][..k] == pages[..k];
    FreshPageIsAppended(Joined(pages[..k]), pages[k], adapt);
    hide DistinctRecords, Joined, Rows, StoreAll, UpdatedRows, NewRows, Trim;
  }

  lemma LoadMoreKeepsEpochs(s: State, ticket: Ticket, answer: Answer, adapt: Adapt)
    ensures var t := Next(s, MoreAnswers(ticket, answer), adapt);
      t.refreshEpoch == s.refreshEpoch && t.loadMoreEpoch == s.loadMoreEpoch && t.app == s.app
  {
    hide StoreAll, MergeDisplayPage, Normalized;
  }

  lemma {:induction false} HonestRest(s: State, pages: seq<seq<Record>>, k: nat, token: nat -> Text, adapt: Adapt)
    requires KeepsIds(adapt) && Honest(pages, token) && 0 < k && Following(s, pages, k, token, adapt)
    ensures var t := Run(s, MoreEvents(pages, k, token, s.refreshEpoch, s.loadMoreEpoch, s.app), adapt);
      Following(t, pages, |pages|, token, adapt)
    decreases |pages| - k
  {
    FollowingStays(s, pages, k, token, adapt);
    hide Next, Following, Honest, KeepsIds;
    if k < |pages| {
      var t := HonestMore(s, pages, k, token, adapt);
      HonestRest(t, pages, k + 1, token, adapt);
      var ticket := Ticket(s.refreshEpoch, s.loadMoreEpoch + 1, s.app);
      RunTwo(s, MoreStarts, MoreAnswers(ticket, Page(pages[k], TokenTo(pages, k + 1, token))),
             MoreEvents(pages, k + 1, token, s.refreshEpoch, s.loadMoreEpoch + 1, s.app), adapt);
    }
  }

  lemma FollowingStays(s: State, pages: seq<seq<Record>>, k: nat, token: nat -> Text, adapt: Adapt)
    requires Following(s, pages, k, token, adapt)
    ensures k <= |pages|
  {
  }

  lemma RunTwo(s: State, a: Event, b: Event, rest: seq<Event>, adapt: Adapt)
    ensures Run(s, [a, b] + rest, adapt) == Run(Next(Next(s, a, adapt), b, adapt), rest, adapt)
  {
    var events := [a, b] + rest;
    assert events[1..] == [b] + rest && events[1..][1..] == rest;
    hide Next;
  }

  /** A refresh forgets the cursors that were given before it. */
  lemma FirstCursor(s: State, page: seq<Record>, next: Option<Text>, adapt: Adapt)
    ensures var t := Next(StartRefresh(s), RefreshAnswers(s.refreshEpoch + 1, false, Page(page, next)), adapt);
      && t.nextPageToken == CursorAfter({}, next) && !t.loadMore
      && t.pageTokens == (if t.nextPageToken.Some? then {t.nextPageToken.value} else {})
      && t.refreshEpoch == s.refreshEpoch + 1 && t.loadMoreEpoch == s.loadMoreEpoch + 1 && t.app == s.app
  {
    hide StoreAll, Rows, Trim, WithPinned, PinnedItem;
  }

  lemma HonestRefresh(s: State, pages: seq<seq<Record>>, token: nat -> Text, app: Option<Text>, adapt: Adapt)
    returns (t: State)
    requires KeepsIds(adapt) && Honest(pages, token) && |pages| > 0
    requires forall r | IsPinned(s, r) :: Lists(pages[0], r.id)
    ensures t == Next(Next(s, RefreshStarts(app), adapt),
                      RefreshAnswers(s.refreshEpoch + 1, false, Page(pages[0], TokenTo(pages, 1, token))), adapt)
    ensures Following(t, pages, 1, token, adapt)
    ensures t.refreshEpoch == s.refreshEpoch + 1 && t.loadMoreEpoch == s.loadMoreEpoch + 1 && t.app == s.app
  {
    var started := Next(s, RefreshStarts(app), adapt);
    var next := TokenTo(pages, 1, token);
    t := Next(started, RefreshAnswers(s.refreshEpoch + 1, false, Page(pages[0], next)), adapt);
    assert started == StartRefresh(s);
    FirstCursor(s, pages[0], next, adapt);
    RefreshShowsPage(started, pages[0], next, adapt) by {
      assert forall r | IsPinned(started, r) :: IsPinned(s, r);
    }
    FirstPageFollows(t, pages, token, adapt);
    hide *;
  }

  lemma FirstPageFollows(t: State, pages: seq<seq<Record>>, token: nat -> Text, adapt: Adapt)
    requires Honest(pages, token) && |pages| > 0 && RowsOfPage(t.items, 0, pages[0], adapt)
    requires t.available && !t.loadMore && t.nextPageToken == CursorAfter({}, TokenTo(pages, 1, token))
    requires t.pageTokens == (if t.nextPageToken.Some? then {t.nextPageToken.value} else {})
    ensures Following(t, pages, 1, token, adapt)
  {
    assert pages[..1] == [pages[0]] && Joined([pages[0]]) == pages[0];
    hide DistinctRecords, Trim, Joined;
  }

  /**
    * Whatever the library held, after a refresh every page of an honest server can be loaded, and all its
    * records are shown, each once and in its order.
    */
  lemma HonestServerIsListed(s: State, pages: seq<seq<Record>>, token: nat -> Text, app: Option<Text>, adapt: Adapt)
    requires KeepsIds(adapt) && Honest(pages, token) && |pages| > 0
    requires forall r | IsPinned(s, r) :: Lists(pages[0], r.id)
    ensures var epoch := s.refreshEpoch + 1;
      var refresh := [RefreshStarts(app), RefreshAnswers(epoch, false, Page(pages[0], TokenTo(pages, 1, token)))];
      var t := Run(s, refresh + MoreEvents(pages, 1, token, epoch, s.loadMoreEpoch + 1, s.app), adapt);
      && t.available && t.nextPageToken.None? && RowsOfPage(t.items, 0, Joined(pages), adapt)
  {
    hide *;
    var t := HonestRefresh(s, pages, token, app, adapt);
    HonestRest(t, pages, 1, token, adapt);
    RunTwo(s, RefreshStarts(app), RefreshAnswers(s.refreshEpoch + 1, false, Page(pages[0], TokenTo(pages, 1, token))),
           MoreEvents(pages, 1, token, s.refreshEpoch + 1, s.loadMoreEpoch + 1, s.app), adapt);
    var events := MoreEvents(pages, 1, token, s.refreshEpoch + 1, s.loadMoreEpoch + 1, s.app);
    AllAreShown(Run(t, events, adapt), pages, token, adapt);
  }

  lemma AllAreShown(t: State, pages: seq<seq<Record>>, token: nat -> Text, adapt: Adapt)
    requires Following(t, pages, |pages|, token, adapt)
    ensures t.available && t.nextPageToken.None? && RowsOfPage(t.items, 0, Joined(pages), adapt)
  {
    assert pages[..|pages|] == pages;
    hide Joined, Trim;
  }
}
