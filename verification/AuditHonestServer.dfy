/**
  * The checks of the audit traversal refuse no honest server: one that pages through a valid
  * descending list with fresh tokens is followed to the end of that list, through any failed requests
  * that are tried again.
  */
module AuditHonestServer {
  import opened Wrappers
  import opened JsText
  import opened Arithmetic
  import opened Utf8
  import opened Pagination
  import opened AuditPages
  import opened AuditTraversalSpec
  import opened AuditTraversalRuns

  /** Canonical tokens that trimming leaves alone, a different one behind each page but the last. */
  ghost predicate HonestTokens(token: nat -> Text, total: nat, pageSize: nat) {
    && (forall k: nat | k * pageSize < total :: Keeps(token(k)))
    && (forall j: nat, k: nat | j * pageSize < total && k * pageSize < total && token(j) == token(k) :: j == k)
  }

  predicate Keeps(t: Text) {
    OpaquePageToken(Some(t)) == Ok(Some(t)) && Normalized(Some(t)) == Some(t)
  }

  /** There are such tokens for every list: page numbers will do. */
  lemma PageNumbersAreHonest(total: nat, pageSize: nat)
    requires total <= MAXIMUM_AUDIT_EVENTS && pageSize > 0
    ensures HonestTokens(Decimal, total, pageSize)
  {
    hide Keeps;
    forall k: nat | k * pageSize < total ensures Keeps(Decimal(k)) {
      AtLeastItself(k, pageSize);
      PageNumberKeeps(k);
    }
    forall j: nat, k: nat | Decimal(j) == Decimal(k) ensures j == k {
      DecimalInjective(j, k);
    }
  }

  lemma AtLeastItself(k: nat, pageSize: nat)
    requires pageSize > 0
    ensures k <= k * pageSize
  {
  }

  lemma PageNumberKeeps(k: nat)
    requires k < 1_000_000
    ensures Keeps(Decimal(k))
  {
    var t := Decimal(k);
    assert Pow10(3) == 1000;
    Pow10Adds(3, 3);
    DecimalFits(k, 6);
    AsciiBytes(t);
    TrimKeepsTrimmed(t);
    assert CanonicalBounded(t, MAXIMUM_AUDIT_PAGE_TOKEN_BYTES) by {
      forall i | 0 <= i < |t| ensures !IsHigh(t[i]) && !IsLow(t[i]) && !IsControl(t[i]) {
        assert IsDigit(t[i]);
      }
    }
  }

  /** What the server has to list: at most 100,000 events, each in order by its own fields, newest first. */
  predicate Listable(kind: Kind, raws: seq<RawEvent>) {
    && |raws| <= 100_000
    && (forall i | 0 <= i < |raws| :: InOrder(kind, raws[i]))
    && (forall i, j | 0 <= i < j < |raws| :: raws[i].event.sequence > raws[j].event.sequence)
  }

  /** The token behind the first `k` pages, when anything is left. */
  function TokenAfter(raws: seq<RawEvent>, pageSize: nat, k: nat, token: nat -> Text): Option<Text> {
    if k * pageSize < |raws| then Some(token(k)) else None
  }

  function HonestReply(raws: seq<RawEvent>, pageSize: nat, k: nat, token: nat -> Text): Reply
    requires k * pageSize <= |raws|
  {
    var from := k * pageSize;
    Listed(raws[from..Min(from + pageSize, |raws|)],
           Some(PageMeta(Some(|raws|), true, TokenAfter(raws, pageSize, k + 1, token))))
  }

  /** Load-mores that fail. */
  function FailedTries(controller: nat, failures: seq<Failure>): seq<Event>
    decreases |failures|
  {
    if failures == [] then []
    else [LoadMore, MoreAnswers(controller, Failed(failures[0]))] + FailedTries(controller + 1, failures[1..])
  }

  /** From page `k` to the last one: some failures, then the page. */
  function MoreEvents(raws: seq<RawEvent>, pageSize: nat, k: nat, token: nat -> Text,
                      failures: nat -> seq<Failure>, controller: nat): seq<Event>
    requires pageSize > 0
    decreases |raws| - k * pageSize
  {
    if k * pageSize >= |raws| then []
    else
      assert (k + 1) * pageSize == k * pageSize + pageSize;
      var answered := controller + |failures(k)|;
      FailedTries(controller, failures(k))
      + ([LoadMore, MoreAnswers(answered, HonestReply(raws, pageSize, k, token))]
         + MoreEvents(raws, pageSize, k + 1, token, failures, answered + 1))
  }

  /** First loads that fail, each followed by a reload. */
  function FailedLoads(generation: nat, pageSize: nat, failures: seq<Failure>): seq<Event>
    decreases |failures|
  {
    if failures == [] then []
    else [InitialAnswers(generation, Failed(failures[0])), Reload(pageSize)]
         + FailedLoads(generation + 1, pageSize, failures[1..])
  }

  /** `k` pages of the list are on screen. */
  ghost predicate Following(s: State, raws: seq<RawEvent>, k: nat, token: nat -> Text) {
    && s.load == Available && s.pageSize > 0 && s.more.None?
    && s.items == Events(raws[..Min(k * s.pageSize, |raws|)]) && s.totalSize == |raws|
    && s.nextPageToken == TokenAfter(raws, s.pageSize, k, token)
    && forall t | t in s.tokensSeen :: exists j: nat | j <= k && j * s.pageSize < |raws| :: t == token(j)
  }

  lemma SliceDescends(raws: seq<RawEvent>, from: nat, to: nat)
    requires forall i, j | 0 <= i < j < |raws| :: raws[i].event.sequence > raws[j].event.sequence
    requires from <= to <= |raws|
    ensures AdjacentDescending(Events(raws[from..to]))
  {
  }

  lemma HonestCounts(total: nat, pageSize: nat, k: nat, token: nat -> Text)
    requires total <= MAXIMUM_AUDIT_EVENTS && pageSize > 0 && (k * pageSize < total || k == 0)
    requires HonestTokens(token, total, pageSize)
    ensures var from := k * pageSize; var to := Min(from + pageSize, total);
      var next := if (k + 1) * pageSize < total then Some(token(k + 1)) else None;
      from <= to && CountsAgree(to - from, total, next, pageSize, if k == 0 then None else Some(token(k)))
  {
  }

  lemma HonestTokenPasses(total: nat, pageSize: nat, k: nat, token: nat -> Text)
    requires HonestTokens(token, total, pageSize)
    ensures var next := if k * pageSize < total then Some(token(k)) else None;
      OpaquePageToken(next) == Ok(next)
  {
  }

  lemma SliceAdaptable(kind: Kind, raws: seq<RawEvent>, from: nat, to: nat)
    requires Listable(kind, raws) && from <= to <= |raws|
    ensures forall i | 0 <= i < to - from :: Adaptable(kind, raws[from..to][i])
  {
  }

  /** An honest page passes the checks of `adaptPage`. */
  lemma HonestPageLoads(kind: Kind, raws: seq<RawEvent>, pageSize: nat, k: nat, token: nat -> Text,
                        requested: Option<Text>)
    requires Listable(kind, raws) && HonestTokens(token, |raws|, pageSize) && 1 <= pageSize <= 200
    requires k * pageSize < |raws| || k == 0
    requires requested == if k == 0 then None else Some(token(k))
    ensures var page := raws[k * pageSize..Min(k * pageSize + pageSize, |raws|)];
      LoadPage(kind, pageSize, requested, HonestReply(raws, pageSize, k, token))
      == Ok(AuditPage(Events(page), TokenAfter(raws, pageSize, k + 1, token), |raws|))
  {
    HonestTokenPasses(|raws|, pageSize, k, token);
    HonestTokenPasses(|raws|, pageSize, k + 1, token);
    HonestCounts(|raws|, pageSize, k, token);
    var from, to := k * pageSize, Min(k * pageSize + pageSize, |raws|);
    SliceDescends(raws, from, to);
    SliceAdaptable(kind, raws, from, to);
    assert OpaquePageToken(None) == Ok(None);
    hide OpaquePageToken, CountsAgree, AdjacentDescending, Adaptable, Listable, HonestTokens;
  }

  /** Its token, if there is one, is not one of the earlier ones. */
  lemma NextTokenIsFresh(s: State, raws: seq<RawEvent>, k: nat, token: nat -> Text)
    requires Following(s, raws, k, token) && HonestTokens(token, |raws|, s.pageSize)
    ensures var next := TokenAfter(raws, s.pageSize, k + 1, token);
      Normalized(next) == next && RecordNextPageToken(s.tokensSeen, next) == Ok(next)
  {
  }

  lemma MissingToken()
    ensures Normalized(None) == None
  {
  }

  /** And it continues the list that the earlier pages made. */
  lemma HonestPageContinues(s: State, raws: seq<RawEvent>, k: nat, token: nat -> Text)
    requires Inv(s) && Following(s, raws, k, token) && k * s.pageSize < |raws|
    requires Listable(s.kind, raws)
    ensures var to := Min(k * s.pageSize + s.pageSize, |raws|);
      && Continues(s, AuditPage(Events(raws[k * s.pageSize..to]), TokenAfter(raws, s.pageSize, k + 1, token), |raws|))
      && s.items + Events(raws[k * s.pageSize..to]) == Events(raws[..to])
  {
    hide PagesFilled, Adaptable, Normalized;
    var p := s.pageSize;
    assert (k + 1) * p == k * p + p;
    var from, to := k * p, Min(k * p + p, |raws|);
    var items := Events(raws[from..to]);
    forall i, n | 0 <= i < |items| && 0 <= n < |s.items| ensures s.items[n].sequence > items[i].sequence {
      assert Events(raws)[n].sequence > Events(raws)[from + i].sequence;
    }
  }

  lemma PageSizeInRange(s: State)
    requires Inv(s) && s.load == Available
    ensures 1 <= s.pageSize <= 200
  {
  }

  /** So the continuation is accepted as it is. */
  lemma HonestContinuation(s: State, raws: seq<RawEvent>, k: nat, token: nat -> Text)
    requires Inv(s) && Following(s, raws, k, token) && k > 0 && k * s.pageSize < |raws|
    requires Listable(s.kind, raws) && HonestTokens(token, |raws|, s.pageSize)
    ensures var page := raws[k * s.pageSize..Min(k * s.pageSize + s.pageSize, |raws|)];
      Continuation(s, HonestReply(raws, s.pageSize, k, token))
      == Ok(AuditPage(Events(page), TokenAfter(raws, s.pageSize, k + 1, token), |raws|))
  {
    PageSizeInRange(s);
    hide Inv, LoadPage, Continues, HonestReply, Listable, HonestTokens, RecordNextPageToken;
    HonestPageLoads(s.kind, raws, s.pageSize, k, token, Some(token(k)));
    HonestPageContinues(s, raws, k, token);
    NextTokenIsFresh(s, raws, k, token);
  }

  lemma AppendFollows(s: State, raws: seq<RawEvent>, k: nat, token: nat -> Text)
    requires Inv(s) && Following(s, raws, k, token) && k * s.pageSize < |raws|
    requires Listable(s.kind, raws) && HonestTokens(token, |raws|, s.pageSize)
    ensures var page := raws[k * s.pageSize..Min(k * s.pageSize + s.pageSize, |raws|)];
      Following(Append(s, AuditPage(Events(page), TokenAfter(raws, s.pageSize, k + 1, token), |raws|)),
                raws, k + 1, token)
  {
    HonestPageContinues(s, raws, k, token);
    NextTokenIsFresh(s, raws, k, token);
    MissingToken();
    hide Inv, Listable, HonestTokens, Normalized, Sequences, Continues;
    assert (k + 1) * s.pageSize == k * s.pageSize + s.pageSize;
  }

  lemma HonestStep(s: State, raws: seq<RawEvent>, k: nat, token: nat -> Text) returns (t: State)
    requires Inv(s) && Following(s, raws, k, token) && k > 0 && k * s.pageSize < |raws|
    requires Listable(s.kind, raws) && HonestTokens(token, |raws|, s.pageSize)
    ensures t == Next(Next(s, LoadMore), MoreAnswers(s.nextController, HonestReply(raws, s.pageSize, k, token)))
    ensures Inv(t) && Following(t, raws, k + 1, token) && t.loadMoreError.None?
    ensures t.kind == s.kind && t.pageSize == s.pageSize && t.nextController == s.nextController + 1
  {
    var reply := HonestReply(raws, s.pageSize, k, token);
    var s1 := Next(s, LoadMore);
    t := Next(s1, MoreAnswers(s.nextController, reply));
    StepKeepsInv(s, LoadMore);
    StepKeepsInv(s1, MoreAnswers(s.nextController, reply));
    HonestContinuation(s, raws, k, token);
    AppendFollows(s, raws, k, token);
    hide Inv, Following, LoadPage, Continues, HonestReply, Listable, HonestTokens, RecordNextPageToken, Normalized;
    AcceptsContinuation(s, reply);
    var page := Continuation(s, reply).value;
    FollowingIgnores(Append(s, page), t, raws, k + 1, token);
  }

  /** An accepted continuation is appended, whatever its controller was, and the last error is gone. */
  lemma AcceptsContinuation(s: State, reply: Reply)
    requires s.nextPageToken.Some? && s.more.None?
    requires Continuation(s, reply).Ok?
    ensures Next(Next(s, LoadMore), MoreAnswers(s.nextController, reply))
         == Append(s, Continuation(s, reply).value).(nextController := s.nextController + 1, loadMoreError := None)
  {
  }

  lemma FollowingIgnores(s: State, t: State, raws: seq<RawEvent>, k: nat, token: nat -> Text)
    requires Following(s, raws, k, token)
    requires t == s.(nextController := t.nextController, loadMoreError := t.loadMoreError)
    ensures Following(t, raws, k, token)
  {
  }

  /** A failure that keeps the cursor changes nothing but the error shown. */
  lemma FailedTry(s: State, raws: seq<RawEvent>, k: nat, token: nat -> Text, failure: Failure) returns (t: State)
    requires Inv(s) && Following(s, raws, k, token) && k * s.pageSize < |raws|
    requires HonestTokens(token, |raws|, s.pageSize) && !StopsTraversal(failure)
    ensures t == Next(Next(s, LoadMore), MoreAnswers(s.nextController, Failed(failure)))
    ensures t == s.(nextController := s.nextController + 1, loadMoreError := Some(failure))
    ensures Inv(t) && Following(t, raws, k, token)
  {
    PageSizeInRange(s);
    HonestTokenPasses(|raws|, s.pageSize, k, token);
    var s1 := Next(s, LoadMore);
    t := Next(s1, MoreAnswers(s.nextController, Failed(failure)));
    StepKeepsInv(s, LoadMore);
    StepKeepsInv(s1, MoreAnswers(s.nextController, Failed(failure)));
    FailureKeepsCursor(s, failure);
    hide Inv, OpaquePageToken, HonestTokens, Next;
  }

  /** The error is shown, the list stays, and the cursor is given up for a 400 and for a broken traversal only. */
  lemma FailureKeepsCursorIff(s: State, controller: nat, failure: Failure)
    requires 1 <= s.pageSize <= 200 && s.more == Some(controller)
    requires OpaquePageToken(s.nextPageToken) == Ok(s.nextPageToken)
    ensures Next(s, MoreAnswers(controller, Failed(failure)))
         == s.(more := None, loadMoreError := Some(failure),
               nextPageToken := if failure == Http(400) || failure.TypeFailure? || failure.RepeatedCursor? then None
                                else s.nextPageToken)
  {
    hide OpaquePageToken;
  }

  /** A first load that fails shows its error and nothing else; one for an older generation changes nothing. */
  lemma FailedLoadIsShown(s: State, controller: nat, failure: Failure)
    requires 1 <= s.pageSize <= 200 && s.load == Loading
    ensures Next(s, InitialAnswers(controller, Failed(failure)))
         == if controller == s.generation then s.(load := FailedToLoad, error := Some(failure)) else s
  {
  }

  /** A page that is refused stops the traversal and leaves the list as it was. */
  lemma RefusedPageStops(s: State, controller: nat, reply: Reply)
    requires s.more == Some(controller)
    requires LoadPage(s.kind, s.pageSize, s.nextPageToken, reply).Ok? && Continuation(s, reply).Err?
    ensures var t := Next(s, MoreAnswers(controller, reply));
      && t.items == s.items && t.sequencesSeen == s.sequencesSeen && t.tokensSeen == s.tokensSeen
      && t.nextPageToken.None? && t.loadMoreError.Some? && t.more.None?
      && (t.loadMoreError.value.TypeFailure? || t.loadMoreError.value.RepeatedCursor?)
  {
    hide LoadPage, RecordNextPageToken;
  }

  lemma FailureKeepsCursor(s: State, failure: Failure)
    requires 1 <= s.pageSize <= 200 && s.nextPageToken.Some? && s.more.None? && !StopsTraversal(failure)
    requires OpaquePageToken(s.nextPageToken) == Ok(s.nextPageToken)
    ensures Next(Next(s, LoadMore), MoreAnswers(s.nextController, Failed(failure)))
         == s.(nextController := s.nextController + 1, loadMoreError := Some(failure))
  {
  }

  lemma RunTwo(s: State, a: Event, b: Event, rest: seq<Event>)
    ensures Run(s, [a, b] + rest) == Run(Next(Next(s, a), b), rest)
  {
  }

  lemma {:induction false} RunConcat(s: State, a: seq<Event>, b: seq<Event>)
    ensures Run(s, a + b) == Run(Run(s, a), b)
    decreases |a|
  {
    hide Next;
    if a == [] {
      assert a + b == b;
    } else {
      assert (a + b)[1..] == a[1..] + b;
      RunConcat(Next(s, a[0]), a[1..], b);
    }
  }

  predicate KeepCursor(failures: seq<Failure>) {
    forall i | 0 <= i < |failures| ::
      failures[i] != Http(400) && !failures[i].TypeFailure? && !failures[i].RepeatedCursor?
  }

  lemma {:induction false} TriesFollow(s: State, raws: seq<RawEvent>, k: nat, token: nat -> Text,
                                       failures: seq<Failure>)
    requires Inv(s) && Following(s, raws, k, token) && s.pageSize > 0 && k * s.pageSize < |raws|
    requires HonestTokens(token, |raws|, s.pageSize) && KeepCursor(failures)
    ensures var t := Run(s, FailedTries(s.nextController, failures));
      && Inv(t) && Following(t, raws, k, token)
      && t.kind == s.kind && t.pageSize == s.pageSize && t.nextController == s.nextController + |failures|
    decreases |failures|
  {
    hide Inv, Following, Next, HonestTokens;
    if failures != [] {
      var t := FailedTry(s, raws, k, token, failures[0]);
      assert forall i | 0 <= i < |failures| - 1 :: failures[1..][i] == failures[i + 1];
      TriesFollow(t, raws, k, token, failures[1..]);
      RunTwo(s, LoadMore, MoreAnswers(s.nextController, Failed(failures[0])),
             FailedTries(s.nextController + 1, failures[1..]));
    }
  }

  lemma FollowedToTheEnd(s: State, raws: seq<RawEvent>, k: nat, token: nat -> Text)
    requires Following(s, raws, k, token) && k * s.pageSize >= |raws| && s.loadMoreError.None?
    ensures Finished(s) && s.items == Events(raws) && s.totalSize == |raws|
  {
  }

  ghost predicate AllKeepCursor(failures: nat -> seq<Failure>) {
    forall k: nat | k > 0 :: KeepCursor(failures(k))
  }

  lemma {:induction false} HonestRunFollows(s: State, raws: seq<RawEvent>, k: nat, token: nat -> Text,
                                            failures: nat -> seq<Failure>)
    requires Inv(s) && Following(s, raws, k, token) && k > 0 && s.loadMoreError.None?
    requires s.pageSize > 0 && Listable(s.kind, raws) && HonestTokens(token, |raws|, s.pageSize)
    requires AllKeepCursor(failures)
    ensures var t := Run(s, MoreEvents(raws, s.pageSize, k, token, failures, s.nextController));
      Finished(t) && t.items == Events(raws) && t.totalSize == |raws|
    decreases |raws| - k * s.pageSize
  {
    hide Inv, Following, Next, Listable, HonestTokens, HonestReply, Finished, KeepCursor, FailedTries;
    if k * s.pageSize >= |raws| {
      FollowedToTheEnd(s, raws, k, token);
    } else {
      var tries := FailedTries(s.nextController, failures(k));
      TriesFollow(s, raws, k, token, failures(k));
      var tried := Run(s, tries);
      var t := HonestStep(tried, raws, k, token);
      assert (k + 1) * s.pageSize == k * s.pageSize + s.pageSize;
      HonestRunFollows(t, raws, k + 1, token, failures);
      var rest := MoreEvents(raws, s.pageSize, k + 1, token, failures, t.nextController);
      var page := MoreAnswers(tried.nextController, HonestReply(raws, s.pageSize, k, token));
      RunTwo(tried, LoadMore, page, rest);
      RunConcat(s, tries, [LoadMore, page] + rest);
    }
  }

  /** A failed first load and the reload after it leave a fresh view behind. */
  lemma {:induction false} LoadsStartAgain(kind: Kind, pageSize: nat, generation: nat, failures: seq<Failure>)
    requires 1 <= pageSize <= 200
    ensures var blank := Initial(kind, pageSize);
      Run(blank.(generation := generation, nextController := generation + 1),
          FailedLoads(generation, pageSize, failures))
      == blank.(generation := generation + |failures|, nextController := generation + |failures| + 1)
    decreases |failures|
  {
    if failures != [] {
      var s := Initial(kind, pageSize).(generation := generation, nextController := generation + 1);
      var t := Next(Next(s, InitialAnswers(generation, Failed(failures[0]))), Reload(pageSize));
      assert t == Initial(kind, pageSize).(generation := generation + 1, nextController := generation + 2);
      hide Next;
      LoadsStartAgain(kind, pageSize, generation + 1, failures[1..]);
      RunTwo(s, InitialAnswers(generation, Failed(failures[0])), Reload(pageSize),
             FailedLoads(generation + 1, pageSize, failures[1..]));
    }
  }

  /** A whole run from an empty view of that generation, with `failures(k)` before page `k`. */
  function HonestRun(raws: seq<RawEvent>, pageSize: nat, token: nat -> Text, failures: nat -> seq<Failure>,
                     generation: nat): seq<Event>
    requires pageSize > 0
  {
    var answered := generation + |failures(0)|;
    FailedLoads(generation, pageSize, failures(0))
    + ([InitialAnswers(answered, HonestReply(raws, pageSize, 0, token))]
       + MoreEvents(raws, pageSize, 1, token, failures, answered + 1))
  }

  lemma FirstPageFollows(kind: Kind, raws: seq<RawEvent>, pageSize: nat, token: nat -> Text, generation: nat)
    requires Listable(kind, raws) && HonestTokens(token, |raws|, pageSize) && 1 <= pageSize <= 200
    ensures var s := Initial(kind, pageSize).(generation := generation, nextController := generation + 1);
      var t := Next(s, InitialAnswers(generation, HonestReply(raws, pageSize, 0, token)));
      && Inv(t) && Following(t, raws, 1, token) && t.loadMoreError.None?
      && t.kind == kind && t.pageSize == pageSize && t.nextController == generation + 1
  {
    hide LoadPage, HonestReply, OpaquePageToken, Listable;
    var s := Initial(kind, pageSize).(generation := generation, nextController := generation + 1);
    var reply := HonestReply(raws, pageSize, 0, token);
    StepKeepsInv(s, InitialAnswers(generation, reply));
    HonestPageLoads(kind, raws, pageSize, 0, token, None);
    assert [] + Events(raws[0..Min(pageSize, |raws|)]) == Events(raws[..Min(pageSize, |raws|)]);
  }

  /** The view shows the server's whole list, in its order, as finished. */
  predicate Shows(s: State, raws: seq<RawEvent>) {
    && Finished(s) && s.error.None? && |s.items| == |raws| == s.totalSize
    && forall i | 0 <= i < |raws| :: s.items[i] == raws[i].event
  }

  lemma FinishedShows(s: State, raws: seq<RawEvent>)
    requires Finished(s) && s.items == Events(raws) && s.totalSize == |raws|
    requires s.load != FailedToLoad ==> s.error.None?
    ensures Shows(s, raws)
  {
  }

  lemma HonestRunShows(kind: Kind, raws: seq<RawEvent>, pageSize: nat, token: nat -> Text,
                       failures: nat -> seq<Failure>, generation: nat)
    requires Listable(kind, raws) && HonestTokens(token, |raws|, pageSize) && 1 <= pageSize <= 200
    requires AllKeepCursor(failures)
    ensures var s := Initial(kind, pageSize).(generation := generation, nextController := generation + 1);
      Shows(Run(s, HonestRun(raws, pageSize, token, failures, generation)), raws)
  {
    hide Inv, Following, Next, Listable, HonestTokens, HonestReply, Finished, AllKeepCursor, FailedLoads;
    var answered := generation + |failures(0)|;
    var s := Initial(kind, pageSize).(generation := generation, nextController := generation + 1);
    LoadsStartAgain(kind, pageSize, generation, failures(0));
    var blank := Initial(kind, pageSize).(generation := answered, nextController := answered + 1);
    var first := InitialAnswers(answered, HonestReply(raws, pageSize, 0, token));
    var rest := MoreEvents(raws, pageSize, 1, token, failures, answered + 1);
    FirstPageFollows(kind, raws, pageSize, token, answered);
    HonestRunFollows(Next(blank, first), raws, 1, token, failures);
    RunConcat(s, FailedLoads(generation, pageSize, failures(0)), [first] + rest);
    assert ([first] + rest)[1..] == rest;
    assert Run(blank, [first] + rest) == Run(Next(blank, first), rest);
    NoErrorWhenAvailable(s, HonestRun(raws, pageSize, token, failures, generation));
    FinishedShows(Run(s, HonestRun(raws, pageSize, token, failures, generation)), raws);
  }

  /** While a list is shown there is no load error. */
  lemma {:induction false} NoErrorWhenAvailable(s: State, events: seq<Event>)
    requires s.load != FailedToLoad ==> s.error.None?
    ensures Run(s, events).load != FailedToLoad ==> Run(s, events).error.None?
    decreases |events|
  {
    if events != [] {
      ErrorStep(s, events[0]);
      hide Next;
      NoErrorWhenAvailable(Next(s, events[0]), events[1..]);
    }
  }

  lemma ErrorStep(s: State, e: Event)
    requires s.load != FailedToLoad ==> s.error.None?
    ensures Next(s, e).load != FailedToLoad ==> Next(s, e).error.None?
  {
    hide LoadPage, Continuation, Normalized;
  }

  /**
    * Whatever an honest server lists, the traversal shows all of it, in its order, without an error, also
    * when first loads fail and are reloaded, and continuations fail without losing the cursor and are
    * tried again, any number of times.
    */
  lemma HonestServerIsShown(kind: Kind, raws: seq<RawEvent>, pageSize: nat, token: nat -> Text,
                            failures: nat -> seq<Failure>)
    requires Listable(kind, raws) && HonestTokens(token, |raws|, pageSize) && 1 <= pageSize <= 200
    requires AllKeepCursor(failures)
    ensures Shows(Run(Initial(kind, pageSize), HonestRun(raws, pageSize, token, failures, 0)), raws)
  {
    hide Run, HonestRun, Shows;
    HonestRunShows(kind, raws, pageSize, token, failures, 0);
    var s := Initial(kind, pageSize);
    assert s == s.(generation := 0, nextController := 1);
  }

  /** A reload forgets everything: from any state at all, the same server is then shown as from the start. */
  lemma ReloadShowsHonestServer(s: State, raws: seq<RawEvent>, pageSize: nat, token: nat -> Text,
                                failures: nat -> seq<Failure>)
    requires Listable(s.kind, raws) && HonestTokens(token, |raws|, pageSize) && 1 <= pageSize <= 200
    requires AllKeepCursor(failures)
    ensures Shows(Run(Next(s, Reload(pageSize)), HonestRun(raws, pageSize, token, failures, s.nextController)), raws)
  {
    hide Run, HonestRun, Shows;
    HonestRunShows(s.kind, raws, pageSize, token, failures, s.nextController);
  }
}
