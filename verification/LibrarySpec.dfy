/**
  * app/search-workspace.tsx: the paged library of saved searches or of search history. A record
  * map and a display list are refreshed, extended and edited while answers come late.
  */
module LibrarySpec {
  import opened Wrappers
  import opened JsText
  import opened Pagination

  datatype Record = Record(id: Text, body: int)

  datatype Row = Row(id: Text, shown: int)

  type Adapt = Record -> Row

  ghost predicate KeepsIds(adapt: Adapt) {
    forall r: Record :: adapt(r).id == r.id
  }

  // ---------- Merging a page into the display list ----------

  /** `new Map(page.map(...)).get(id)`: the last record with that id. */
  function LastWithId(page: seq<Record>, id: Text): (r: Option<Record>)
    ensures r.Some? ==> r.value in page && r.value.id == id
    ensures r.None? ==> forall p | p in page :: p.id != id
  {
    if page == [] then None
    else if page[|page| - 1].id == id then Some(page[|page| - 1])
    else LastWithId(page[..|page| - 1], id)
  }

  function RowIds(rows: seq<Row>): set<Text> {
    set r | r in rows :: r.id
  }

  function RecordIds(page: seq<Record>): set<Text> {
    set r | r in page :: r.id
  }

  function UpdatedRows(current: seq<Row>, page: seq<Record>, adapt: Adapt): (rows: seq<Row>)
    ensures |rows| == |current|
    ensures forall i | 0 <= i < |rows| ::
      rows[i] == match LastWithId(page, current[i].id) case None => current[i] case Some(r) => adapt(r)
  {
    seq(|current|, i requires 0 <= i < |current| =>
      match LastWithId(page, current[i].id) case None => current[i] case Some(r) => adapt(r))
  }

  /** The rows of the records whose ids are not listed yet, in page order. */
  function NewRows(existing: set<Text>, page: seq<Record>, adapt: Adapt): seq<Row> {
    if page == [] then []
    else
      var last := page[|page| - 1];
      NewRows(existing, page[..|page| - 1], adapt) + (if last.id in existing then [] else [adapt(last)])
  }

  function MergeDisplayPage(current: seq<Row>, page: seq<Record>, adapt: Adapt): seq<Row> {
    UpdatedRows(current, page, adapt) + NewRows(RowIds(current), page, adapt)
  }

  /** The record map after `set` for every record of the page, in order. */
  function StoreAll(records: map<Text, Record>, page: seq<Record>): map<Text, Record> {
    if page == [] then records
    else StoreAll(records, page[..|page| - 1])[page[|page| - 1].id := page[|page| - 1]]
  }

  function Rows(page: seq<Record>, adapt: Adapt): (rows: seq<Row>)
    ensures |rows| == |page|
    ensures forall i | 0 <= i < |rows| :: rows[i] == adapt(page[i])
  {
    seq(|page|, i requires 0 <= i < |page| => adapt(page[i]))
  }

  function WithoutRow(rows: seq<Row>, id: Text): seq<Row> {
    if rows == [] then []
    else
      var last := rows[|rows| - 1];
      WithoutRow(rows[..|rows| - 1], id) + (if last.id == id then [] else [last])
  }

  // ---------- The library's state ----------

  /** What may be pinned: a listed id (saved searches) or a record of its own (history). */
  datatype Pin = NoPin | PinnedId(id: Text) | PinnedRecord(record: Record)

  /** A load-more remembers the epochs and the app it was started under. */
  datatype Ticket = Ticket(refreshEpoch: nat, loadMoreEpoch: nat, app: Option<Text>)

  datatype State = State(
    records: map<Text, Record>,
    items: seq<Row>,
    nextPageToken: Option<Text>,
    pageTokens: set<Text>,
    refreshEpoch: nat,
    loadMoreEpoch: nat,
    loadMore: bool,              // the load-more lock
    available: bool,
    app: Option<Text>,           // the selected app
    pin: Pin,
    inFlight: set<Ticket>        // load-more requests without an answer
  )

  datatype Answer = Page(items: seq<Record>, nextPageToken: Option<Text>) | Unavailable | Failed

  datatype Event =
    | RefreshStarts(app: Option<Text>)                    // the app of the bootstrap it was given
    | RefreshAnswers(epoch: nat, aborted: bool, answer: Answer)
    | MoreStarts
    | MoreAnswers(ticket: Ticket, answer: Answer)
    | Stored(record: Record)      // saved, renamed, duplicated, reloaded, or opened by a link
    | Removed(id: Text)           // deleted, or gone on reload
    | HistoryCleared
    | AppSelected(app: Option<Text>, refreshes: bool)
    | PinSet(pin: Pin)

  function Initial(app: Option<Text>): State {
    State(map[], [], None, {}, 0, 0, false, false, app, NoPin, {})
  }

  function PinnedItem(pin: Pin, records: map<Text, Record>): Option<Record> {
    match pin
    case NoPin => None
    case PinnedId(id) => if id in records then Some(records[id]) else None
    case PinnedRecord(record) => Some(record)
  }

  /** The pinned record goes first unless the page lists its id. */
  function WithPinned(pinned: Option<Record>, page: seq<Record>): seq<Record> {
    if pinned.Some? && pinned.value.id !in RecordIds(page) then [pinned.value] + page else page
  }

  function StartRefresh(s: State): State {
    s.(refreshEpoch := s.refreshEpoch + 1, loadMoreEpoch := s.loadMoreEpoch + 1, loadMore := false,
       pageTokens := {})
  }

  /** The next cursor; a repeated one stops the paging. */
  function TakeToken(s: State, token: Option<Text>): State {
    match RecordNextPageToken(s.pageTokens, token)
    case Ok(next) => s.(nextPageToken := next, pageTokens := Remember(s.pageTokens, token))
    case Err(_) => s.(nextPageToken := None)
  }

  function FinishRefresh(s: State, answer: Answer, adapt: Adapt): State {
    match answer
    case Failed => s.(nextPageToken := None, available := false)
    case Unavailable => s.(records := map[], items := [], nextPageToken := None, available := false)
    case Page(page, next) =>
      var items := WithPinned(PinnedItem(s.pin, s.records), page);
      TakeToken(s.(records := StoreAll(map[], items), items := Rows(items, adapt), available := true), next)
  }

  function StartMore(s: State): State {
    if s.nextPageToken.None? || s.loadMore then s
    else
      s.(loadMoreEpoch := s.loadMoreEpoch + 1, loadMore := true,
         inFlight := s.inFlight + {Ticket(s.refreshEpoch, s.loadMoreEpoch + 1, s.app)})
  }

  predicate Current(s: State, ticket: Ticket) {
    ticket.refreshEpoch == s.refreshEpoch && ticket.app == s.app
  }

  function ApplyMore(s: State, answer: Answer, adapt: Adapt): State {
    match answer
    case Failed => s
    case Unavailable => s.(available := false, nextPageToken := None)
    case Page(page, next) =>
      TakeToken(s.(records := StoreAll(s.records, page), items := MergeDisplayPage(s.items, page, adapt)), next)
  }

  function FinishMore(s: State, ticket: Ticket, answer: Answer, adapt: Adapt): State {
    var t := s.(inFlight := s.inFlight - {ticket});
    if !Current(s, ticket) then t
    else
      var merged := ApplyMore(t, answer, adapt);
      if ticket.loadMoreEpoch == s.loadMoreEpoch then merged.(loadMore := false) else merged
  }

  function Store(s: State, record: Record, adapt: Adapt): State {
    s.(records := s.records[record.id := record],
       items := [adapt(record)] + WithoutRow(s.items, adapt(record).id))
  }

  function Remove(s: State, id: Text): State {
    s.(records := map k | k in s.records && k != id :: s.records[k],
       items := WithoutRow(s.items, id))
  }

  /** Another app, or a new start with the same one; only a fallback to no app starts no refresh. */
  predicate Refreshes(app: Option<Text>, refreshes: bool) {
    refreshes || app.Some?
  }

  function SelectApp(s: State, app: Option<Text>, refreshes: bool): State {
    if app == s.app && !refreshes then s
    else
      var cleared := s.(app := app, records := map[], items := [], nextPageToken := None, pin := NoPin);
      if Refreshes(app, refreshes) then StartRefresh(cleared) else cleared
  }

  function Next(s: State, e: Event, adapt: Adapt): State {
    match e
    case RefreshStarts(_) => StartRefresh(s)
    case RefreshAnswers(epoch, aborted, answer) =>
      if aborted || epoch != s.refreshEpoch then s else FinishRefresh(s, answer, adapt)
    case MoreStarts => StartMore(s)
    case MoreAnswers(ticket, answer) =>
      if ticket in s.inFlight then FinishMore(s, ticket, answer, adapt) else s
    case Stored(record) => Store(s, record, adapt)
    case Removed(id) => Remove(s, id)
    case HistoryCleared =>
      StartRefresh(s).(records := map[], items := [], nextPageToken := None)
    case AppSelected(app, refreshes) => SelectApp(s, app, refreshes)
    case PinSet(pin) => s.(pin := pin)
  }

  function Run(s: State, events: seq<Event>, adapt: Adapt): State
    decreases |events|
  {
    if events == [] then s else Run(Next(s, events[0], adapt), events[1..], adapt)
  }
}
