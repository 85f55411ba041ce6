/** app/activity/backend-audit-data.ts: one page of an audit list, checked before it is shown. */
module AuditPages {
  import opened Wrappers
  import opened JsText
  import opened Pagination

  const MAXIMUM_AUDIT_EVENTS: int := 100_000
  const MAXIMUM_SIGNED_INT64: int := 0x7FFF_FFFF_FFFF_FFFF

  datatype Kind = Mutation | SearchAttempt

  /** The fields the traversal looks at, and the rest of the event. */
  datatype AuditEvent = AuditEvent(sequence: int, rest: int)

  datatype VersionPolicy = VersionPolicy(minimum: int, exact: bool)

  /** An event as received; `policy` is missing when the action is not a known one. */
  datatype RawEvent = RawEvent(event: AuditEvent, policy: Option<VersionPolicy>, targetVersion: int,
                               projectionValid: bool)

  datatype PageMeta = PageMeta(totalSize: Option<int>, totalSizeExact: bool, nextPageToken: Option<Text>)

  datatype AuditPage = AuditPage(items: seq<AuditEvent>, nextPageToken: Option<Text>, totalSize: int)

  datatype Failure = TypeFailure | RangeFailure | RepeatedCursor | Http(status: nat) | OtherFailure

  /** What the server may do with one request: anything at all. */
  datatype Reply = Failed(failure: Failure) | Listed(events: seq<RawEvent>, meta: Option<PageMeta>)

  predicate ValidActionVersion(policy: VersionPolicy, version: int) {
    && 1 <= version <= MAXIMUM_SIGNED_INT64
    && version >= policy.minimum
    && (policy.exact ==> version == policy.minimum)
  }

  predicate Adaptable(kind: Kind, raw: RawEvent) {
    match kind
    case Mutation =>
      && 1 <= raw.event.sequence <= MAXIMUM_AUDIT_EVENTS
      && raw.policy.Some? && ValidActionVersion(raw.policy.value, raw.targetVersion)
      && raw.projectionValid
    case SearchAttempt => raw.event.sequence > 0 && raw.projectionValid
  }

  function Events(raws: seq<RawEvent>): (r: seq<AuditEvent>)
    ensures |r| == |raws|
    ensures forall i | 0 <= i < |r| :: r[i] == raws[i].event
  {
    seq(|raws|, i requires 0 <= i < |raws| => raws[i].event)
  }

  /** The order check of the loop: each sequence above the one after it. */
  predicate AdjacentDescending(items: seq<AuditEvent>) {
    forall i | 1 <= i < |items| :: items[i - 1].sequence > items[i].sequence
  }

  predicate StrictlyDescending(items: seq<AuditEvent>) {
    forall i, j | 0 <= i < j < |items| :: items[i].sequence > items[j].sequence
  }

  lemma {:induction false} AdjacentIsDescending(items: seq<AuditEvent>)
    requires AdjacentDescending(items)
    ensures StrictlyDescending(items)
  {
    if |items| > 1 {
      var front := items[..|items| - 1];
      AdjacentIsDescending(front);
      forall i, j | 0 <= i < j < |items| ensures items[i].sequence > items[j].sequence {
        assert items[|items| - 2].sequence > items[|items| - 1].sequence;
        assert i < |items| - 2 ==> front[i].sequence > front[|items| - 2].sequence;
        assert j < |items| - 1 ==> front[i].sequence > front[j].sequence;
      }
    }
  }

  /** The count checks of `adaptPage`, on the request's token and the reply's. */
  predicate CountsAgree(count: nat, total: int, next: Option<Text>, pageSize: int, requested: Option<Text>) {
    && count <= pageSize
    && count <= total <= MAXIMUM_AUDIT_EVENTS
    && (next.Some? ==> count == pageSize && next != requested && total > count)
    && (requested.None? && next.None? ==> total == count)
  }

  function AdaptPage(items: seq<AuditEvent>, meta: Option<PageMeta>, pageSize: int, requested: Option<Text>)
    : Result<AuditPage, Failure>
  {
    if meta.None? || meta.value.totalSize.None? || !meta.value.totalSizeExact then Err(TypeFailure)
    else
      match OpaquePageToken(meta.value.nextPageToken)
      case Err(_) => Err(TypeFailure)
      case Ok(next) =>
        var total := meta.value.totalSize.value;
        if CountsAgree(|items|, total, next, pageSize, requested) && AdjacentDescending(items)
        then Ok(AuditPage(items, next, total))
        else Err(TypeFailure)
  }

  /** One request and its reply, up to the page or the error it throws. */
  function LoadPage(kind: Kind, pageSize: int, token: Option<Text>, reply: Reply): Result<AuditPage, Failure> {
    if !(1 <= pageSize <= 200) then Err(RangeFailure)
    else
      match OpaquePageToken(token)
      case Err(_) => Err(TypeFailure)
      case Ok(requested) =>
        match reply
        case Failed(failure) => Err(failure)
        case Listed(raws, meta) =>
          if |raws| > pageSize then Err(TypeFailure)
          else if !(forall i | 0 <= i < |raws| :: Adaptable(kind, raws[i])) then Err(TypeFailure)
          else AdaptPage(Events(raws), meta, pageSize, requested)
  }

  /** What a caller may rely on in a page, whatever the server sent. */
  lemma LoadedPage(kind: Kind, pageSize: int, token: Option<Text>, reply: Reply)
    requires LoadPage(kind, pageSize, token, reply).Ok?
    ensures var page := LoadPage(kind, pageSize, token, reply).value;
      && 1 <= pageSize <= 200
      && StrictlyDescending(page.items)
      && (forall i | 0 <= i < |page.items| :: page.items[i].sequence >= 1)
      && |page.items| <= pageSize && |page.items| <= page.totalSize <= MAXIMUM_AUDIT_EVENTS
      && (page.nextPageToken.Some? ==> |page.items| == pageSize < page.totalSize)
      && (page.nextPageToken.Some? ==> OpaquePageToken(page.nextPageToken) == Ok(page.nextPageToken))
      && (token.None? && page.nextPageToken.None? ==> page.totalSize == |page.items|)
  {
    AdjacentIsDescending(LoadPage(kind, pageSize, token, reply).value.items);
  }

  // ---------- Which pages are accepted ----------

  /** An event in order, in its own fields. */
  predicate InOrder(kind: Kind, raw: RawEvent) {
    && raw.projectionValid && raw.event.sequence >= 1
    && (kind == Mutation ==>
          && raw.event.sequence <= 100_000
          && raw.policy.Some?
          && 1 <= raw.targetVersion <= 9_223_372_036_854_775_807
          && (if raw.policy.value.exact then raw.targetVersion == raw.policy.value.minimum
              else raw.targetVersion >= raw.policy.value.minimum))
  }

  lemma AdaptableIffInOrder(kind: Kind, raw: RawEvent)
    ensures Adaptable(kind, raw) <==> InOrder(kind, raw)
  {
  }

  predicate HasToken(token: Option<Text>) {
    token.Some? && token.value != []
  }

  /** A listed reply that is otherwise in order: its metadata, its token and its counts. */
  predicate MetaInOrder(count: nat, meta: Option<PageMeta>, pageSize: int, token: Option<Text>) {
    && meta.Some? && meta.value.totalSize.Some? && meta.value.totalSizeExact
    && OpaquePageToken(meta.value.nextPageToken).Ok?
    && count <= meta.value.totalSize.value <= 100_000
    && (HasToken(meta.value.nextPageToken) ==>
          count == pageSize && meta.value.nextPageToken != token && count < meta.value.totalSize.value)
    && (!HasToken(meta.value.nextPageToken) && !HasToken(token) ==> count == meta.value.totalSize.value)
  }

  /**
    * A request is answered by a page if and only if it asks for 1 to 200 events with no token or a good one,
    * and the reply lists at most so many, each in order, strictly descending, under metadata in order; the
    * page then holds exactly those events.
    */
  lemma AcceptedIff(kind: Kind, pageSize: int, token: Option<Text>, reply: Reply)
    ensures LoadPage(kind, pageSize, token, reply).Ok? <==>
      && 1 <= pageSize <= 200 && OpaquePageToken(token).Ok?
      && reply.Listed? && |reply.events| <= pageSize
      && (forall i | 0 <= i < |reply.events| :: InOrder(kind, reply.events[i]))
      && (forall i | 1 <= i < |reply.events| :: reply.events[i - 1].event.sequence > reply.events[i].event.sequence)
      && MetaInOrder(|reply.events|, reply.meta, pageSize, token)
    ensures LoadPage(kind, pageSize, token, reply).Ok? ==>
      var page := LoadPage(kind, pageSize, token, reply).value;
      && |page.items| == |reply.events|
      && (forall i | 0 <= i < |page.items| :: page.items[i] == reply.events[i].event)
      && page.totalSize == reply.meta.value.totalSize.value
      && page.nextPageToken == if HasToken(reply.meta.value.nextPageToken) then reply.meta.value.nextPageToken else None
  {
    hide Adaptable, InOrder, CanonicalBounded;
    if reply.Listed? {
      forall i | 0 <= i < |reply.events|
        ensures Adaptable(kind, reply.events[i]) <==> InOrder(kind, reply.events[i])
      {
        AdaptableIffInOrder(kind, reply.events[i]);
      }
    }
  }
}
