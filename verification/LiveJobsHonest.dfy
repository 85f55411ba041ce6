/**
  * What the answers of the job list come to, in its own fields, and that its checks refuse no honest
  * server: any list of jobs that is newest first and repeats no id is loaded whole.
  */
module LiveJobsHonest {
  import opened Wrappers
  import opened JsText
  import opened Pagination
  import opened LiveJobs

  // ---------- The order ----------

  /** Created later, or at the same time with the id that sorts after the other. */
  ghost predicate Before(a: Job, b: Job) {
    && a.createdAt.Some? && b.createdAt.Some?
    && (|| a.createdAt.value > b.createdAt.value
        || (a.createdAt.value == b.createdAt.value && exists i: nat :: BelowAt(b.id, a.id, i)))
  }

  lemma NewerIsBefore(a: Job, b: Job)
    ensures Newer(a, b) <==> Before(a, b)
  {
    LessAtDifference(b.id, a.id);
  }

  /** A page is accepted if and only if it has its metadata, repeats no id and is newest first. */
  lemma PageAcceptedIff(jobs: seq<Job>, metaValid: bool, token: Option<Text>)
    ensures var loaded := LoadJobs(Listed(jobs, metaValid, token), None);
      && (loaded.Page? <==>
            && metaValid && (forall i, j | 0 <= i < j < |jobs| :: jobs[i].id != jobs[j].id)
            && forall i | 0 < i < |jobs| :: Before(jobs[i - 1], jobs[i]))
      && (loaded.Page? ==> loaded.jobs == jobs)
      && (!loaded.Page? ==> loaded == Error(TypeFailure))
  {
    forall i | 0 < i < |jobs| ensures Newer(jobs[i - 1], jobs[i]) <==> Before(jobs[i - 1], jobs[i]) {
      NewerIsBefore(jobs[i - 1], jobs[i]);
    }
    hide Newer, Before;
  }

  // ---------- Answers that bring no page ----------

  /** A failed load-more leaves the list, and the cursor too unless it is broken or refused as bad. */
  lemma FailedMore(s: State, controller: nat, failure: Failure)
    requires s.more == Some(controller)
    ensures Next(s, MoreAnswers(controller, Failed(failure)))
         == s.(more := None,
               nextPageToken := if failure == Http(400) || failure.TypeFailure? || failure.RepeatedCursor? then None
                                else s.nextPageToken)
    ensures Next(s, MoreAnswers(controller, Unavailable)) == s.(more := None, nextPageToken := None)
  {
  }

  /** A page that is out of order or repeats a loaded job stops the paging and leaves the list. */
  lemma RefusedMore(s: State, controller: nat, jobs: seq<Job>, token: Option<Text>)
    requires Inv(s) && s.loaded && s.more == Some(controller)
    requires || (exists i, j | 0 <= i < |s.jobs| && 0 <= j < |jobs| :: s.jobs[i].id == jobs[j].id)
             || (s.jobs != [] && jobs != [] && !Before(s.jobs[|s.jobs| - 1], jobs[0]))
    ensures RecordNextPageToken(if s.nextPageToken.Some? then {s.nextPageToken.value} else {}, token).Ok? ==>
      Next(s, MoreAnswers(controller, Listed(jobs, true, token))) == s.(more := None, nextPageToken := None)
  {
    if s.jobs != [] && jobs != [] {
      NewerIsBefore(s.jobs[|s.jobs| - 1], jobs[0]);
    }
    if i, j :| 0 <= i < |s.jobs| && 0 <= j < |jobs| && s.jobs[i].id == jobs[j].id {
      IdsHas(s.jobs, i);
      IdsHas(jobs, j);
    }
    hide Newer, Before, DistinctIds, AdjacentNewer, MergeById, RecordNextPageToken;
  }

  /**
    * A page that follows the list is appended, and its jobs stay also when its token was seen before: then
    * only the cursor is given up.
    */
  lemma FollowingPageIsAppended(s: State, controller: nat, page: seq<Job>, token: Option<Text>)
    requires Inv(s) && s.loaded && s.more == Some(controller) && s.nextPageToken.Some?
    requires Ordered(s.jobs + page)
    requires token.None? || Trim(token.value) == [] || Trim(token.value) != s.nextPageToken.value
    ensures var t := Next(s, MoreAnswers(controller, Listed(page, true, token)));
      && t.jobs == s.jobs + page && t.more.None? && t.loaded
      && t.nextPageToken == (if token.None? || Trim(token.value) == [] || Trim(token.value) in s.tokensSeen then None
                             else Some(Trim(token.value)))
  {
    PageFollows(s.jobs, page);
    MergeAppends(s.jobs, page);
    if token.Some? {
      var a, b := TrimSplits(token.value);
      TrimKeepsTrimmed(Trim(token.value));
    }
    hide Newer, Ids, Ordered, DistinctIds, AdjacentNewer, MergeById, Trim, NewestFirst;
  }

  /** A failed first load keeps what is on screen; so does an unavailable one, but the next load starts empty. */
  lemma FailedPrimary(s: State, failure: Failure)
    requires s.awaiting
    ensures Next(s, PrimaryAnswers(s.generation, Failed(failure))) == s.(awaiting := false)
    ensures Next(s, PrimaryAnswers(s.generation, Unavailable)) == s.(awaiting := false, hasLoaded := false)
  {
  }

  /** An accepted cancellation changes the job's own row only, and the list is loaded again. */
  lemma CancelReplacesRow(s: State, job: Job)
    ensures var t := Next(s, CancelAccepted(job));
      && t.awaiting && !t.loaded && t.nextPageToken.None? && t.more.None? && t.generation == s.nextController
      && (!s.hasLoaded ==> t.jobs == [])
      && (s.hasLoaded ==> |t.jobs| == |s.jobs| && forall i | 0 <= i < |s.jobs| ::
            t.jobs[i] == if s.jobs[i].id == job.id then job else s.jobs[i])
  {
  }

  // ---------- An honest server ----------

  function Joined(pages: seq<seq<Job>>): seq<Job> {
    if pages == [] then [] else Joined(pages[..|pages| - 1]) + pages[|pages| - 1]
  }

  /** Newest first and no id twice. */
  ghost predicate Ordered(jobs: seq<Job>) {
    && (forall i, j | 0 <= i < j < |jobs| :: jobs[i].id != jobs[j].id)
    && (forall i, j | 0 <= i < j < |jobs| :: Before(jobs[i], jobs[j]))
  }

  /** All pages together are ordered, and behind each page but the last a visible token, another one each time. */
  ghost predicate Honest(pages: seq<seq<Job>>, token: nat -> Text) {
    && Ordered(Joined(pages))
    && (forall k: nat | 0 < k < |pages| :: Trim(token(k)) != [])
    && (forall j: nat, k: nat | 0 < j < k < |pages| :: Trim(token(j)) != Trim(token(k)))
  }

  function TokenTo(pages: seq<seq<Job>>, k: nat, token: nat -> Text): Option<Text> {
    if k < |pages| then Some(token(k)) else None
  }

  function CursorTo(pages: seq<seq<Job>>, k: nat, token: nat -> Text): Option<Text> {
    if k < |pages| then Some(Trim(token(k))) else None
  }

  /** From page `k` to the last one, each asked for and answered. */
  function MoreEvents(pages: seq<seq<Job>>, k: nat, token: nat -> Text, controller: nat): seq<Event>
    decreases |pages| - k
  {
    if k >= |pages| then []
    else
      [MoreStarts, MoreAnswers(controller, Listed(pages[k], true, TokenTo(pages, k + 1, token)))]
      + MoreEvents(pages, k + 1, token, controller + 1)
  }

  /** The first `k` pages are listed and the cursor leads to the next one. */
  ghost predicate Following(s: State, pages: seq<seq<Job>>, k: nat, token: nat -> Text) {
    && 0 < k <= |pages| && s.loaded && s.more.None?
    && s.jobs == Joined(pages[..k]) && s.jobIdsSeen == Ids(s.jobs) && s.lastLoaded == LastOf(s.jobs)
    && s.nextPageToken == CursorTo(pages, k, token)
    && forall t | t in s.tokensSeen :: exists j: nat :: 0 < j <= k && j < |pages| && t == Trim(token(j))
  }

  lemma {:induction false} PartsAreOrdered(pages: seq<seq<Job>>, k: nat)
    requires k <= |pages| && Ordered(Joined(pages))
    ensures Ordered(Joined(pages[..k]))
    decreases |pages|
  {
    hide Before;
    if k == |pages| {
      assert pages[..k] == pages;
    } else {
      var front := pages[..|pages| - 1];
      assert forall i | 0 <= i < |Joined(front)| :: Joined(pages)[i] == Joined(front)[i];
      PartsAreOrdered(front, k);
      assert front[..k] == pages[..k];
    }
  }

  /** What the checks ask of a page that follows `done`. */
  lemma PageFollows(done: seq<Job>, page: seq<Job>)
    requires Ordered(done + page)
    ensures DistinctIds(page) && AdjacentNewer(page) && DistinctIds(done) && Ids(done) !! Ids(page)
    ensures done != [] && page != [] ==> Newer(done[|done| - 1], page[0])
  {
    hide Before, Newer;
    var all := done + page;
    forall i, j | 0 <= i < j < |all| ensures Newer(all[i], all[j]) {
      NewerIsBefore(all[i], all[j]);
    }
    assert forall i | 0 <= i < |done| :: all[i] == done[i];
    assert forall i | 0 <= i < |page| :: all[|done| + i] == page[i];
  }

  /** A token and the cursor it becomes read alike, and are new where no such cursor was seen. */
  lemma TokenIsNew(pages: seq<seq<Job>>, k: nat, token: nat -> Text, seen: set<Text>)
    requires Honest(pages, token) && k > 0
    requires forall t | t in seen :: exists j: nat :: 0 < j < k && j < |pages| && t == Trim(token(j))
    ensures var cursor := CursorTo(pages, k, token);
      && RecordNextPageToken(seen, TokenTo(pages, k, token)) == RecordNextPageToken(seen, cursor) == Ok(cursor)
      && Normalized(cursor) == cursor
      && Remember(seen, cursor) == seen + (if cursor.Some? then {cursor.value} else {})
  {
    if k < |pages| {
      var a, b := TrimSplits(token(k));
      TrimKeepsTrimmed(Trim(token(k)));
    }
    hide Trim, Ordered;
  }

  /** A page that passes the checks is appended. */
  lemma MoreTaken(s: State, page: seq<Job>, token: Option<Text>, cursor: Option<Text>)
    requires s.nextPageToken.Some? && s.more.None?
    requires DistinctIds(page) && AdjacentNewer(page) && Continues(s, page)
    requires RecordNextPageToken({s.nextPageToken.value}, token) == Ok(cursor)
    requires RecordNextPageToken(s.tokensSeen, cursor) == Ok(cursor)
    ensures Next(Next(s, MoreStarts), MoreAnswers(s.nextController, Listed(page, true, token)))
         == s.(nextController := s.nextController + 1, jobs := MergeById(s.jobs, page),
               jobIdsSeen := s.jobIdsSeen + Ids(page), lastLoaded := if page == [] then s.lastLoaded else LastOf(page),
               nextPageToken := cursor, tokensSeen := Remember(s.tokensSeen, cursor))
  {
    hide Newer, Ids, Normalized, RecordNextPageToken, DistinctIds, AdjacentNewer, MergeById, Remember;
  }

  lemma HonestMore(s: State, pages: seq<seq<Job>>, k: nat, token: nat -> Text) returns (t: State)
    requires Honest(pages, token) && Following(s, pages, k, token) && k < |pages|
    ensures t == Next(Next(s, MoreStarts),
                      MoreAnswers(s.nextController, Listed(pages[k], true, TokenTo(pages, k + 1, token))))
    ensures Following(t, pages, k + 1, token) && t.nextController == s.nextController + 1
  {
    var page := pages[k];
    t := Next(Next(s, MoreStarts), MoreAnswers(s.nextController, Listed(page, true, TokenTo(pages, k + 1, token))));
    TokenIsNew(pages, k + 1, token, {Trim(token(k))});
    TokenIsNew(pages, k + 1, token, s.tokensSeen);
    OrderedSoFar(pages, k);
    PageFollows(s.jobs, page);
    MoreTaken(s, page, TokenTo(pages, k + 1, token), CursorTo(pages, k + 1, token));
    hide *;
    FollowingGrows(s, t, pages, k, token);
  }

  lemma OrderedSoFar(pages: seq<seq<Job>>, k: nat)
    requires k < |pages| && Ordered(Joined(pages))
    ensures Joined(pages[..k + 1]) == Joined(pages[..k]) + pages[k] && Ordered(Joined(pages[..k]) + pages[k])
  {
    hide Ordered;
    PartsAreOrdered(pages, k + 1);
    assert pages[..k + 1][..k] == pages[..k];
  }

  lemma FollowingGrows(s: State, t: State, pages: seq<seq<Job>>, k: nat, token: nat -> Text)
    requires Honest(pages, token) && Following(s, pages, k, token) && k < |pages|
    requires t == s.(nextController := t.nextController, jobs := MergeById(s.jobs, pages[k]),
                     jobIdsSeen := s.jobIdsSeen + Ids(pages[k]),
                     lastLoaded := if pages[k] == [] then s.lastLoaded else LastOf(pages[k]),
                     nextPageToken := CursorTo(pages, k + 1, token),
                     tokensSeen := Remember(s.tokensSeen, CursorTo(pages, k + 1, token)))
    ensures Following(t, pages, k + 1, token)
  {
    OrderedSoFar(pages, k);
    PageFollows(s.jobs, pages[k]);
    MergeAppends(s.jobs, pages[k]);
    IdsConcat(s.jobs, pages[k]);
    TokenIsNew(pages, k + 1, token, s.tokensSeen);
    hide Joined, Newer, Ids, Trim, Remember, DistinctIds, AdjacentNewer, MergeById, Honest, Ordered;
    assert pages[k] == [] ==> s.jobs + pages[k] == s.jobs;
  }

  lemma {:induction false} HonestRest(s: State, pages: seq<seq<Job>>, k: nat, token: nat -> Text)
    requires Honest(pages, token) && Following(s, pages, k, token)
    ensures Following(Run(s, MoreEvents(pages, k, token, s.nextController)), pages, |pages|, token)
    decreases |pages| - k
  {
    assert k <= |pages|;
    hide *;
    RunMore(s, pages, k, token);
    if k < |pages| {
      var t := HonestMore(s, pages, k, token);
      HonestRest(t, pages, k + 1, token);
    }
  }

  lemma RunMore(s: State, pages: seq<seq<Job>>, k: nat, token: nat -> Text)
    ensures var page := if k < |pages| then pages[k] else [];
      var answer := MoreAnswers(s.nextController, Listed(page, true, TokenTo(pages, k + 1, token)));
      var rest := MoreEvents(pages, k + 1, token, s.nextController + 1);
      Run(s, MoreEvents(pages, k, token, s.nextController))
      == if k < |pages| then Run(Next(Next(s, MoreStarts), answer), rest) else s
  {
    hide Next, TokenTo;
    if k < |pages| {
      var answer := MoreAnswers(s.nextController, Listed(pages[k], true, TokenTo(pages, k + 1, token)));
      RunTwo(s, MoreStarts, answer, MoreEvents(pages, k + 1, token, s.nextController + 1));
      hide Run;
    }
  }

  lemma RunTwo(s: State, a: Event, b: Event, rest: seq<Event>)
    ensures Run(s, [a, b] + rest) == Run(Next(Next(s, a), b), rest)
  {
    var events := [a, b] + rest;
    assert events[1..] == [b] + rest && events[1..][1..] == rest;
    hide Next;
  }

  lemma FirstPage(s: State, pages: seq<seq<Job>>, token: nat -> Text) returns (t: State)
    requires Honest(pages, token) && |pages| > 0
    ensures t == Next(Next(s, Reload),
                      PrimaryAnswers(s.nextController, Listed(pages[0], true, TokenTo(pages, 1, token))))
    ensures Following(t, pages, 1, token) && t.nextController == s.nextController + 1
  {
    var page := pages[0];
    t := Next(Next(s, Reload), PrimaryAnswers(s.nextController, Listed(page, true, TokenTo(pages, 1, token))));
    TokenIsNew(pages, 1, token, {});
    OrderedSoFar(pages, 0);
    assert pages[..0] == [] && [] + page == page;
    PageFollows([], page);
    hide Ordered, Honest, Joined;
    FirstTaken(s, page, TokenTo(pages, 1, token), CursorTo(pages, 1, token));
    hide *;
    FollowsFirst(t, pages, token);
  }

  /** A first page that passes the checks is shown. */
  lemma FirstTaken(s: State, page: seq<Job>, token: Option<Text>, cursor: Option<Text>)
    requires DistinctIds(page) && AdjacentNewer(page)
    requires RecordNextPageToken({}, token) == Ok(cursor) && Normalized(cursor) == cursor
    ensures var t := Next(Next(s, Reload), PrimaryAnswers(s.nextController, Listed(page, true, token)));
      && t.loaded && t.more.None? && t.jobs == page && t.jobIdsSeen == Ids(page) && t.lastLoaded == LastOf(page)
      && t.nextPageToken == cursor && t.tokensSeen == Remember({}, cursor)
      && t.nextController == s.nextController + 1
  {
    hide Newer, Ids, Normalized, RecordNextPageToken, DistinctIds, AdjacentNewer, Remember;
  }

  lemma FollowsFirst(t: State, pages: seq<seq<Job>>, token: nat -> Text)
    requires Honest(pages, token) && |pages| > 0
    requires t.loaded && t.more.None? && t.jobs == pages[0] && t.jobIdsSeen == Ids(t.jobs)
    requires t.lastLoaded == LastOf(t.jobs)
    requires t.nextPageToken == CursorTo(pages, 1, token) && t.tokensSeen == Remember({}, t.nextPageToken)
    ensures Following(t, pages, 1, token)
  {
    TokenIsNew(pages, 1, token, {});
    assert pages[..1] == [pages[0]] && Joined([pages[0]]) == pages[0];
    hide Joined, Ids, Trim, Remember, Ordered;
  }

  /**
    * After a reload, whatever was on screen, every page of an honest server can be loaded, and the list
    * is all its jobs in its order.
    */
  lemma HonestJobsAreShown(s: State, pages: seq<seq<Job>>, token: nat -> Text)
    requires Honest(pages, token) && |pages| > 0
    ensures var first := PrimaryAnswers(s.nextController, Listed(pages[0], true, TokenTo(pages, 1, token)));
      var t := Run(s, [Reload, first] + MoreEvents(pages, 1, token, s.nextController + 1));
      t.loaded && t.jobs == Joined(pages) && t.nextPageToken.None?
  {
    var t := FirstPage(s, pages, token);
    HonestRest(t, pages, 1, token);
    assert pages[..|pages|] == pages;
    var first := PrimaryAnswers(s.nextController, Listed(pages[0], true, TokenTo(pages, 1, token)));
    RunTwo(s, Reload, first, MoreEvents(pages, 1, token, s.nextController + 1));
    hide Next, Run, Joined, MoreEvents, Honest;
  }
}
