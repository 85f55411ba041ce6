/** The refs and setters of one library, updated in place and proved against `LibrarySpec`. */
module Library {
  import opened Wrappers
  import opened JsText
  import opened Pagination
  import Spec = LibrarySpec
  import Runs = LibraryRuns

  class PagedLibrary {
    const toDisplay: Spec.Adapt
    var records: map<Text, Spec.Record>
    var items: seq<Spec.Row>
    var nextPageToken: Option<Text>
    var pageTokens: set<Text>
    var refreshEpoch: nat
    var loadMoreEpoch: nat
    var loadMore: bool
    var available: bool
    var app: Option<Text>
    var pin: Spec.Pin
    var inFlight: set<Spec.Ticket>

    ghost function View(): Spec.State
      reads this
    {
      Spec.State(records, items, nextPageToken, pageTokens, refreshEpoch, loadMoreEpoch, loadMore, available,
                 app, pin, inFlight)
    }

    ghost predicate Valid()
      reads this
    {
      Spec.KeepsIds(toDisplay) && Runs.Inv(View(), toDisplay)
    }

    constructor (app: Option<Text>, toDisplay: Spec.Adapt)
      requires Spec.KeepsIds(toDisplay)
      ensures View() == Spec.Initial(app) && Valid() && this.toDisplay == toDisplay
    {
      this.toDisplay, this.app := toDisplay, app;
      records, items, nextPageToken, pageTokens := map[], [], None, {};
      refreshEpoch, loadMoreEpoch, loadMore, available := 0, 0, false, false;
      pin, inFlight := Spec.NoPin, {};
      new;
      Runs.EmptyAgrees(toDisplay);
    }

    /** Every request of an earlier epoch is outdated from here on. */
    method StartRefresh() returns (epoch: nat)
      modifies `refreshEpoch, `loadMoreEpoch, `loadMore, `pageTokens
      ensures View() == Spec.StartRefresh(old(View())) && epoch == refreshEpoch
    {
      refreshEpoch := refreshEpoch + 1;
      epoch := refreshEpoch;
      loadMoreEpoch := loadMoreEpoch + 1;
      loadMore := false;
      pageTokens := {};
    }

    method TakeToken(token: Option<Text>)
      modifies `nextPageToken, `pageTokens
      ensures View() == Spec.TakeToken(old(View()), token)
    {
      var normalized := Normalized(token);
      if normalized.None? {
        nextPageToken := None;
      } else if normalized.value in pageTokens {
        nextPageToken := None;
      } else {
        pageTokens := pageTokens + {normalized.value};
        nextPageToken := normalized;
      }
    }

    method StoreRecords(page: seq<Spec.Record>)
      modifies `records
      ensures records == Spec.StoreAll(old(records), page)
    {
      for i := 0 to |page|
        invariant records == Spec.StoreAll(old(records), page[..i])
      {
        records := records[page[i].id := page[i]];
        assert page[..i + 1][..i] == page[..i];
      }
      assert page[..|page|] == page;
    }

    method FinishRefresh(answer: Spec.Answer)
      modifies `records, `items, `nextPageToken, `pageTokens, `available
      ensures View() == Spec.FinishRefresh(old(View()), answer, toDisplay)
    {
      match answer {
        case Failed =>
          nextPageToken, available := None, false;
        case Unavailable =>
          records, items, nextPageToken, available := map[], [], None, false;
        case Page(page, next) =>
          var listed := Spec.WithPinned(Spec.PinnedItem(pin, records), page);
          records := map[];
          StoreRecords(listed);
          items := Spec.Rows(listed, toDisplay);
          available := true;
          TakeToken(next);
      }
    }

    method RefreshAnswers(epoch: nat, aborted: bool, answer: Spec.Answer)
      requires Valid()
      modifies this
      ensures View() == Spec.Next(old(View()), Spec.RefreshAnswers(epoch, aborted, answer), toDisplay)
      ensures Valid() <==> Runs.PageFits(old(View()), Spec.RefreshAnswers(epoch, aborted, answer))
    {
      ghost var before := View();
      if !aborted && epoch == refreshEpoch {
        FinishRefresh(answer);
      }
      Runs.StepAgrees(before, Spec.RefreshAnswers(epoch, aborted, answer), toDisplay);
      Runs.StepKeepsTickets(before, Spec.RefreshAnswers(epoch, aborted, answer), toDisplay);
    }

    /** Takes the lock and remembers the epochs and the app it is started under. */
    method StartMore() returns (ticket: Option<Spec.Ticket>)
      requires Valid()
      modifies this
      ensures View() == Spec.Next(old(View()), Spec.MoreStarts, toDisplay) && Valid()
      ensures ticket.Some? <==> old(nextPageToken.Some? && !loadMore)
      ensures ticket.Some? ==> ticket.value in inFlight && Spec.Current(View(), ticket.value)
    {
      Runs.StepKeepsTickets(View(), Spec.MoreStarts, toDisplay);
      if nextPageToken.None? || loadMore {
        return None;
      }
      loadMoreEpoch := loadMoreEpoch + 1;
      loadMore := true;
      ticket := Some(Spec.Ticket(refreshEpoch, loadMoreEpoch, app));
      inFlight := inFlight + {ticket.value};
    }

    method ApplyMore(answer: Spec.Answer)
      modifies `records, `items, `nextPageToken, `pageTokens, `available
      ensures View() == Spec.ApplyMore(old(View()), answer, toDisplay)
    {
      match answer {
        case Failed =>
        case Unavailable =>
          nextPageToken, available := None, false;
        case Page(page, next) =>
          StoreRecords(page);
          items := Spec.MergeDisplayPage(items, page, toDisplay);
          TakeToken(next);
      }
    }

    /** An answer under another epoch or app changes nothing and leaves the lock alone. */
    method MoreAnswers(ticket: Spec.Ticket, answer: Spec.Answer)
      requires Valid() && ticket in inFlight
      modifies this
      ensures View() == Spec.Next(old(View()), Spec.MoreAnswers(ticket, answer), toDisplay)
      ensures Valid() <==> Runs.PageFits(old(View()), Spec.MoreAnswers(ticket, answer))
    {
      hide Spec.ApplyMore, Runs.Agree, Runs.TicketsConsistent, Runs.PageFits;
      Runs.StepAgrees(View(), Spec.MoreAnswers(ticket, answer), toDisplay);
      Runs.StepKeepsTickets(View(), Spec.MoreAnswers(ticket, answer), toDisplay);
      var current := refreshEpoch == ticket.refreshEpoch && app == ticket.app;
      inFlight := inFlight - {ticket};
      if current {
        ApplyMore(answer);
        if loadMoreEpoch == ticket.loadMoreEpoch {
          loadMore := false;
        }
      }
    }

    /** Save, duplicate, rename, reload: the returned record moves to the top of the list. */
    method Store(record: Spec.Record)
      requires Valid()
      modifies `records, `items
      ensures View() == Spec.Next(old(View()), Spec.Stored(record), toDisplay) && Valid()
    {
      Runs.StoreKeepsAgree(View(), record, toDisplay);
      records := records[record.id := record];
      var row := toDisplay(record);
      items := [row] + Spec.WithoutRow(items, row.id);
    }

    method Remove(id: Text)
      requires Valid()
      modifies `records, `items
      ensures View() == Spec.Next(old(View()), Spec.Removed(id), toDisplay) && Valid()
    {
      Runs.RemoveKeepsAgree(View(), id, toDisplay);
      records := map k | k in records && k != id :: records[k];
      items := Spec.WithoutRow(items, id);
    }

    /** Another app empties the library; only a fallback to no app starts no refresh. */
    method SelectApp(newApp: Option<Text>, refreshes: bool)
      requires Valid()
      modifies this
      ensures View() == Spec.Next(old(View()), Spec.AppSelected(newApp, refreshes), toDisplay) && Valid()
    {
      Runs.StepKeepsTickets(View(), Spec.AppSelected(newApp, refreshes), toDisplay);
      if newApp == app && !refreshes {
        return;
      }
      app, records, items, nextPageToken, pin := newApp, map[], [], None, Spec.NoPin;
      if refreshes || newApp.Some? {
        var _ := StartRefresh();
      }
    }

    method ClearHistory()
      requires Valid()
      modifies this
      ensures View() == Spec.Next(old(View()), Spec.HistoryCleared, toDisplay) && Valid()
    {
      Runs.StepKeepsTickets(View(), Spec.HistoryCleared, toDisplay);
      var _ := StartRefresh();
      records, items, nextPageToken := map[], [], None;
    }
  }
}
