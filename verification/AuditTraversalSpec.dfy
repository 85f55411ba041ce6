/**
  * app/activity/backend-audit-views.tsx, `useAuditTraversal`: the paged list of one audit view
  * against a server that may answer anything. Requests whose controller was aborted are dropped.
  */
module AuditTraversalSpec {
  import opened Wrappers
  import opened JsText
  import opened Pagination
  import opened AuditPages

  datatype LoadState = Loading | Available | FailedToLoad

  datatype State = State(
    kind: Kind,
    pageSize: int,
    load: LoadState,
    items: seq<AuditEvent>,
    totalSize: int,
    nextPageToken: Option<Text>,
    error: Option<Failure>,
    loadMoreError: Option<Failure>,
    tokensSeen: set<Text>,
    sequencesSeen: set<int>,
    generation: nat,             // the controller of the initial load
    more: Option<nat>,           // the controller of the load-more in flight
    nextController: nat,
    accepted: nat,               // pages accepted in this generation
    offered: Option<Text>        // the token the last accepted page carried, as received
  )

  datatype Event =
    | Reload(pageSize: int)
    | InitialAnswers(controller: nat, reply: Reply)
    | LoadMore
    | MoreAnswers(controller: nat, reply: Reply)

  function Initial(kind: Kind, pageSize: int): State {
    State(kind, pageSize, Loading, [], 0, None, None, None, {}, {}, 0, None, 1, 0, None)
  }

  function Sequences(items: seq<AuditEvent>): set<int> {
    set i | 0 <= i < |items| :: items[i].sequence
  }

  /** Errors after which the cursor is given up. */
  predicate StopsTraversal(failure: Failure) {
    failure == Http(400) || failure.RepeatedCursor? || failure.TypeFailure?
  }

  /** The checks across pages, in the order the source makes them. */
  predicate Continues(s: State, page: AuditPage) {
    && page.totalSize == s.totalSize
    && (forall i | 0 <= i < |page.items| :: page.items[i].sequence !in s.sequencesSeen)
    && (s.items != [] && page.items != [] ==> s.items[|s.items| - 1].sequence > page.items[0].sequence)
    && var combined := |s.items| + |page.items|;
       && combined <= page.totalSize
       && (page.nextPageToken.None? ==> combined == page.totalSize)
       && (page.nextPageToken.Some? ==> combined < page.totalSize)
  }

  function Append(s: State, page: AuditPage): State {
    s.(items := s.items + page.items,
       totalSize := page.totalSize,
       nextPageToken := Normalized(page.nextPageToken),
       tokensSeen := Remember(s.tokensSeen, page.nextPageToken),
       sequencesSeen := s.sequencesSeen + Sequences(page.items),
       accepted := s.accepted + 1,
       offered := page.nextPageToken)
  }

  function ReloadState(s: State, pageSize: int): State {
    Initial(s.kind, pageSize).(generation := s.nextController, nextController := s.nextController + 1)
  }

  /** The first page starts from empty sets, so its token cannot be a repeated one. */
  function AcceptInitial(s: State, reply: Reply): State {
    match LoadPage(s.kind, s.pageSize, None, reply)
    case Err(failure) => s.(load := FailedToLoad, error := Some(failure))
    case Ok(page) => Append(s, page).(load := Available)
  }

  function StartMore(s: State): State {
    if s.nextPageToken.None? || s.more.Some? then s
    else s.(more := Some(s.nextController), nextController := s.nextController + 1, loadMoreError := None)
  }

  /** What one continuation comes to: the page to append, or the error it throws. */
  function Continuation(s: State, reply: Reply): Result<AuditPage, Failure> {
    match LoadPage(s.kind, s.pageSize, s.nextPageToken, reply)
    case Err(failure) => Err(failure)
    case Ok(page) =>
      if !Continues(s, page) then Err(TypeFailure)
      else if RecordNextPageToken(s.tokensSeen, page.nextPageToken).Err? then Err(RepeatedCursor)
      else Ok(page)
  }

  function AcceptMore(s: State, reply: Reply): State {
    var idle := s.(more := None);
    match Continuation(s, reply)
    case Ok(page) => Append(idle, page)
    case Err(failure) =>
      idle.(loadMoreError := Some(failure),
            nextPageToken := if StopsTraversal(failure) then None else s.nextPageToken)
  }

  function Next(s: State, e: Event): State {
    match e
    case Reload(pageSize) => ReloadState(s, pageSize)
    case InitialAnswers(controller, reply) =>
      if controller == s.generation && s.load == Loading then AcceptInitial(s, reply) else s
    case LoadMore => StartMore(s)
    case MoreAnswers(controller, reply) =>
      if s.more == Some(controller) then AcceptMore(s, reply) else s
  }

  function Run(s: State, events: seq<Event>): State
    decreases |events|
  {
    if events == [] then s else Run(Next(s, events[0]), events[1..])
  }
}
