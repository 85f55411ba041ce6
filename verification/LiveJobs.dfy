/**
  * app/activity/backend-live-jobs.tsx over lib/search/server-jobs.ts: the newest-first list of
  * search jobs, paged from a server that may answer anything.
  */
module LiveJobs {
  import opened Wrappers
  import opened JsText
  import opened Pagination

  datatype Job = Job(createdAt: Option<int>, id: Text)

  datatype Failure = TypeFailure | RepeatedCursor | Http(status: nat) | OtherFailure

  datatype Reply =
    | Listed(jobs: seq<Job>, metaValid: bool, nextPageToken: Option<Text>)
    | Unavailable
    | Failed(failure: Failure)

  datatype Loaded = Page(jobs: seq<Job>, next: Option<Text>) | NotAvailable | Error(failure: Failure)

  /** The documented order: a later creation time first, then the greater id. */
  predicate Newer(a: Job, b: Job) {
    && a.createdAt.Some? && b.createdAt.Some?
    && (a.createdAt.value > b.createdAt.value
        || (a.createdAt.value == b.createdAt.value && Less(b.id, a.id)))
  }

  predicate NewestFirst(jobs: seq<Job>) {
    forall i, j | 0 <= i < j < |jobs| :: Newer(jobs[i], jobs[j])
  }

  predicate AdjacentNewer(jobs: seq<Job>) {
    forall i | 1 <= i < |jobs| :: Newer(jobs[i - 1], jobs[i])
  }

  predicate DistinctIds(jobs: seq<Job>) {
    forall i, j | 0 <= i < j < |jobs| :: jobs[i].id != jobs[j].id
  }

  function Ids(jobs: seq<Job>): set<Text> {
    set j | j in jobs :: j.id
  }

  /** `listServerSearchJobs` for one page, which itself refuses repeated ids and a broken order. */
  function LoadJobs(reply: Reply, requested: Option<Text>): Loaded {
    match reply
    case Failed(failure) => Error(failure)
    case Unavailable => NotAvailable
    case Listed(jobs, metaValid, token) =>
      if !metaValid || !DistinctIds(jobs) || !AdjacentNewer(jobs) then Error(TypeFailure)
      else
        var seen := if requested.Some? then {requested.value} else {};
        match RecordNextPageToken(seen, token)
        case Err(_) => Error(RepeatedCursor)
        case Ok(next) => Page(jobs, next)
  }

  datatype State = State(
    hasLoaded: bool,
    awaiting: bool,              // the first page of this generation has not been answered
    loaded: bool,                // the first page of this generation has been accepted
    jobs: seq<Job>,
    nextPageToken: Option<Text>,
    tokensSeen: set<Text>,
    jobIdsSeen: set<Text>,
    lastLoaded: Option<Job>,
    generation: nat,
    more: Option<nat>,
    nextController: nat
  )

  datatype Event =
    | Reload
    | PrimaryAnswers(generation: nat, reply: Reply)
    | MoreStarts
    | MoreAnswers(controller: nat, reply: Reply)
    | CancelAccepted(job: Job)   // replaces the job's row and reloads

  function Initial(): State {
    State(false, true, false, [], None, {}, {}, None, 0, None, 1)
  }

  /** A list that has loaded before stays on screen while the next one loads. */
  function StartLoad(s: State): State {
    s.(awaiting := true, loaded := false, jobs := if s.hasLoaded then s.jobs else [], nextPageToken := None,
       tokensSeen := {}, jobIdsSeen := {}, lastLoaded := None,
       generation := s.nextController, more := None, nextController := s.nextController + 1)
  }

  function LastOf(jobs: seq<Job>): Option<Job> {
    if jobs == [] then None else Some(jobs[|jobs| - 1])
  }

  function AcceptPrimary(s: State, reply: Reply): State {
    match LoadJobs(reply, None)
    case Error(_) => s.(awaiting := false)
    case NotAvailable => s.(awaiting := false, hasLoaded := false)
    case Page(jobs, next) =>
      s.(awaiting := false, hasLoaded := true, loaded := true,
         jobs := jobs, jobIdsSeen := s.jobIdsSeen + Ids(jobs), lastLoaded := LastOf(jobs),
         nextPageToken := Normalized(next), tokensSeen := Remember(s.tokensSeen, next))
  }

  // ---------- A JavaScript Map keyed by id ----------

  /** `Map.set`: an id that is there keeps its place. */
  function SetById(jobs: seq<Job>, job: Job): seq<Job> {
    if jobs == [] then [job]
    else if jobs[0].id == job.id then [job] + jobs[1..]
    else [jobs[0]] + SetById(jobs[1..], job)
  }

  function SetAll(jobs: seq<Job>, page: seq<Job>): seq<Job>
    decreases |page|
  {
    if page == [] then jobs else SetAll(SetById(jobs, page[0]), page[1..])
  }

  /** The list after a later page: the values of a map filled with both. */
  function MergeById(current: seq<Job>, page: seq<Job>): seq<Job> {
    SetAll(SetAll([], current), page)
  }

  predicate Continues(s: State, page: seq<Job>) {
    && (s.lastLoaded.Some? && page != [] ==> Newer(s.lastLoaded.value, page[0]))
    && Ids(page) !! s.jobIdsSeen
  }

  predicate StopsPaging(failure: Failure) {
    failure.RepeatedCursor? || failure.TypeFailure? || failure == Http(400)
  }

  function AcceptMore(s: State, reply: Reply): State {
    var idle := s.(more := None);
    match LoadJobs(reply, s.nextPageToken)
    case NotAvailable => idle.(nextPageToken := None)
    case Error(failure) => if StopsPaging(failure) then idle.(nextPageToken := None) else idle
    case Page(page, next) =>
      if !Continues(s, page) then idle.(nextPageToken := None)
      else
        // The page is taken before its token is looked at.
        var t := idle.(jobs := MergeById(s.jobs, page), jobIdsSeen := s.jobIdsSeen + Ids(page),
                       lastLoaded := if page == [] then s.lastLoaded else LastOf(page));
        match RecordNextPageToken(s.tokensSeen, next)
        case Err(_) => t.(nextPageToken := None)
        case Ok(token) => t.(nextPageToken := token, tokensSeen := Remember(s.tokensSeen, next))
  }

  function ReplaceRow(jobs: seq<Job>, job: Job): (r: seq<Job>)
    ensures |r| == |jobs|
  {
    seq(|jobs|, i requires 0 <= i < |jobs| => if jobs[i].id == job.id then job else jobs[i])
  }

  function Next(s: State, e: Event): State {
    match e
    case Reload => StartLoad(s)
    case PrimaryAnswers(generation, reply) =>
      if generation == s.generation && s.awaiting then AcceptPrimary(s, reply) else s
    case MoreStarts =>
      if s.nextPageToken.None? || s.more.Some? then s
      else s.(more := Some(s.nextController), nextController := s.nextController + 1)
    case MoreAnswers(controller, reply) => if s.more == Some(controller) then AcceptMore(s, reply) else s
    case CancelAccepted(job) => StartLoad(s.(jobs := ReplaceRow(s.jobs, job)))
  }

  function Run(s: State, events: seq<Event>): State
    decreases |events|
  {
    if events == [] then s else Run(Next(s, events[0]), events[1..])
  }

  // ---------- Orders and identities ----------

  lemma NewerTransitive(a: Job, b: Job, c: Job)
    requires Newer(a, b) && Newer(b, c)
    ensures Newer(a, c)
  {
    if a.createdAt == b.createdAt == c.createdAt {
      LessTransitive(c.id, b.id, a.id);
    }
  }

  lemma {:induction false} AdjacentIsNewestFirst(jobs: seq<Job>)
    requires AdjacentNewer(jobs)
    ensures NewestFirst(jobs)
  {
    if |jobs| > 1 {
      var front, n := jobs[..|jobs| - 1], |jobs| - 1;
      AdjacentIsNewestFirst(front);
      forall i, j | 0 <= i < j < |jobs| ensures Newer(jobs[i], jobs[j]) {
        assert Newer(jobs[n - 1], jobs[n]);
        if j < n {
          assert Newer(front[i], front[j]);
        } else if i < n - 1 {
          assert Newer(front[i], front[n - 1]);
          NewerTransitive(jobs[i], jobs[n - 1], jobs[n]);
        }
      }
    }
  }

  lemma AppendNewestFirst(a: seq<Job>, b: seq<Job>)
    requires NewestFirst(a) && NewestFirst(b)
    requires a != [] && b != [] ==> Newer(a[|a| - 1], b[0])
    ensures NewestFirst(a + b)
  {
    var c := a + b;
    forall i, j | 0 <= i < j < |c| ensures Newer(c[i], c[j]) {
      if i < |a| <= j {
        if i < |a| - 1 {
          NewerTransitive(a[i], a[|a| - 1], b[0]);
        }
        if j > |a| {
          NewerTransitive(c[i], b[0], b[j - |a|]);
        }
      }
    }
  }

  lemma IdsHas(jobs: seq<Job>, i: nat)
    requires i < |jobs|
    ensures jobs[i].id in Ids(jobs)
  {
  }

  lemma IdsConcat(a: seq<Job>, b: seq<Job>)
    ensures Ids(a + b) == Ids(a) + Ids(b)
  {
  }

  lemma AppendDistinct(a: seq<Job>, b: seq<Job>)
    requires DistinctIds(a) && DistinctIds(b) && Ids(a) !! Ids(b)
    ensures DistinctIds(a + b)
  {
    var c := a + b;
    forall i, j | 0 <= i < j < |c| ensures c[i].id != c[j].id {
      if i < |a| <= j {
        IdsHas(a, i);
        IdsHas(b, j - |a|);
      }
    }
  }

  lemma {:induction false} SetByIdAppends(jobs: seq<Job>, job: Job)
    requires job.id !in Ids(jobs)
    ensures SetById(jobs, job) == jobs + [job]
  {
    if jobs != [] {
      IdsHas(jobs, 0);
      assert Ids(jobs[1..]) <= Ids(jobs);
      SetByIdAppends(jobs[1..], job);
    }
  }

  lemma SplitFirst(page: seq<Job>)
    requires page != [] && DistinctIds(page)
    ensures Ids(page) == {page[0].id} + Ids(page[1..])
    ensures page[0].id !in Ids(page[1..]) && DistinctIds(page[1..])
  {
  }

  /** Jobs with new ids go to the end of a map, in order. */
  lemma {:induction false} SetAllAppends(jobs: seq<Job>, page: seq<Job>)
    requires DistinctIds(page) && Ids(jobs) !! Ids(page)
    ensures SetAll(jobs, page) == jobs + page
    decreases |page|
  {
    if page == [] {
      assert jobs + page == jobs;
    } else {
      hide Ids, DistinctIds;
      var first, rest := page[0], page[1..];
      SplitFirst(page);
      SetByIdAppends(jobs, first);
      IdsSnoc(jobs, first);
      SetAllAppends(jobs + [first], rest);
      assert jobs + page == (jobs + [first]) + rest;
    }
  }

  lemma IdsSnoc(jobs: seq<Job>, job: Job)
    ensures Ids(jobs + [job]) == Ids(jobs) + {job.id}
  {
  }

  /** So the merged list is the old one followed by the page. */
  lemma MergeAppends(current: seq<Job>, page: seq<Job>)
    requires DistinctIds(current) && DistinctIds(page) && Ids(current) !! Ids(page)
    ensures MergeById(current, page) == current + page
  {
    SetAllAppends([], current);
    assert [] + current == current;
    SetAllAppends(current, page);
  }

  // ---------- Runs ----------

  /** What the whole list is, and what is remembered about it. */
  predicate Listing(s: State) {
    && NewestFirst(s.jobs) && DistinctIds(s.jobs)
    && s.jobIdsSeen == Ids(s.jobs) && s.lastLoaded == LastOf(s.jobs)
  }

  predicate Forgotten(s: State) {
    s.tokensSeen == {} && s.jobIdsSeen == {} && s.lastLoaded.None? && s.nextPageToken.None? && s.more.None?
  }

  predicate Inv(s: State) {
    && (s.loaded ==> Listing(s))
    && (!s.loaded ==> Forgotten(s))
    && (s.awaiting ==> !s.loaded)
  }

  lemma LoadedPage(reply: Reply, requested: Option<Text>)
    ensures LoadJobs(reply, requested).Page? ==>
      NewestFirst(LoadJobs(reply, requested).jobs) && DistinctIds(LoadJobs(reply, requested).jobs)
  {
    if LoadJobs(reply, requested).Page? {
      AdjacentIsNewestFirst(reply.jobs);
    }
  }

  lemma MoreKeepsInv(s: State, reply: Reply)
    requires Inv(s) && s.loaded
    ensures Inv(AcceptMore(s, reply)) && AcceptMore(s, reply).loaded
  {
    hide LoadJobs, MergeById;
    LoadedPage(reply, s.nextPageToken);
    var loaded := LoadJobs(reply, s.nextPageToken);
    if loaded.Page? && Continues(s, loaded.jobs) {
      var page := loaded.jobs;
      MergeAppends(s.jobs, page);
      AppendNewestFirst(s.jobs, page);
      AppendDistinct(s.jobs, page);
      IdsConcat(s.jobs, page);
      assert page == [] ==> s.jobs + page == s.jobs;
    }
  }

  lemma StepKeepsInv(s: State, e: Event)
    requires Inv(s)
    ensures Inv(Next(s, e))
  {
    hide AcceptMore;
    match e {
      case PrimaryAnswers(generation, reply) =>
        LoadedPage(reply, None);
      case MoreAnswers(controller, reply) =>
        if s.more == Some(controller) {
          MoreKeepsInv(s, reply);
        }
      case _ =>
    }
  }

  lemma {:induction false} ReachableInv(s: State, events: seq<Event>)
    requires Inv(s)
    ensures Inv(Run(s, events))
    decreases |events|
  {
    hide Inv, Next;
    if events != [] {
      StepKeepsInv(s, events[0]);
      ReachableInv(Next(s, events[0]), events[1..]);
    }
  }

  /**
    * For any server and any order of answers: once the first page of a generation is in, the whole
    * accumulated list is newest-first in (createdAt, id) and lists no id twice.
    */
  lemma AccumulatedJobs(events: seq<Event>)
    ensures var s := Run(Initial(), events);
      s.loaded ==> NewestFirst(s.jobs) && DistinctIds(s.jobs) && s.jobIdsSeen == Ids(s.jobs)
  {
    ReachableInv(Initial(), events);
  }

  /** The remembered ids and last job match the list unless an old list is kept on screen. */
  lemma RememberedIffLoaded(events: seq<Event>)
    ensures var s := Run(Initial(), events);
      (s.jobIdsSeen == Ids(s.jobs) && s.lastLoaded == LastOf(s.jobs)) <==> (s.loaded || s.jobs == [])
  {
    ReachableInv(Initial(), events);
  }

  /** That happens when a reload of a loaded list fails; no cursor is left to page on with. */
  lemma FailedReloadKeepsOldList(job: Job)
    ensures var s := Run(Initial(), [PrimaryAnswers(0, Listed([job], true, None)), Reload,
                                     PrimaryAnswers(1, Failed(OtherFailure))]);
      s.jobs == [job] && s.jobIdsSeen == {} && s.nextPageToken.None? && !s.loaded
  {
    var s0 := Initial();
    var e0, e1, e2 := PrimaryAnswers(0, Listed([job], true, None)), Reload, PrimaryAnswers(1, Failed(OtherFailure));
    var s1 := Next(s0, e0);
    var s2 := Next(s1, e1);
    var s3 := Next(s2, e2);
    assert [e0, e1, e2][1..] == [e1, e2] && [e1, e2][1..] == [e2] && [e2][1..] == [];
    assert Run(s0, [e0, e1, e2]) == Run(s1, [e1, e2]) == Run(s2, [e2]) == Run(s3, []);
  }

  // ---------- The hook's refs and state, updated in place ----------

  class JobList {
    var hasLoaded: bool
    var awaiting: bool
    var loaded: bool
    var jobs: seq<Job>
    var nextPageToken: Option<Text>
    var tokensSeen: set<Text>
    var jobIdsSeen: set<Text>
    var lastLoaded: Option<Job>
    var generation: nat
    var more: Option<nat>
    var nextController: nat

    ghost function View(): State
      reads this
    {
      State(hasLoaded, awaiting, loaded, jobs, nextPageToken, tokensSeen, jobIdsSeen, lastLoaded, generation,
            more, nextController)
    }

    ghost predicate Valid()
      reads this
    {
      Inv(View())
    }

    constructor ()
      ensures View() == Initial() && Valid()
    {
      hasLoaded, awaiting, loaded, jobs, nextPageToken := false, true, false, [], None;
      tokensSeen, jobIdsSeen, lastLoaded, generation, more, nextController := {}, {}, None, 0, None, 1;
    }

    method StartLoad()
      requires Valid()
      modifies this
      ensures View() == Next(old(View()), Reload) && Valid()
    {
      awaiting, loaded := true, false;
      if !hasLoaded {
        jobs := [];
      }
      nextPageToken, tokensSeen, jobIdsSeen, lastLoaded := None, {}, {}, None;
      more := None;
      generation := nextController;
      nextController := nextController + 1;
    }

    method AddIds(page: seq<Job>)
      modifies `jobIdsSeen
      ensures jobIdsSeen == old(jobIdsSeen) + Ids(page)
    {
      for i := 0 to |page|
        invariant jobIdsSeen == old(jobIdsSeen) + Ids(page[..i])
      {
        jobIdsSeen := jobIdsSeen + {page[i].id};
        assert page[..i + 1] == page[..i] + [page[i]];
        IdsSnoc(page[..i], page[i]);
      }
      assert page[..|page|] == page;
    }

    method TakeToken(token: Option<Text>)
      modifies `nextPageToken, `tokensSeen
      ensures match RecordNextPageToken(old(tokensSeen), token)
              case Err(_) => nextPageToken.None? && tokensSeen == old(tokensSeen)
              case Ok(next) => nextPageToken == next && tokensSeen == Remember(old(tokensSeen), token)
    {
      var normalized := Normalized(token);
      if normalized.Some? && normalized.value in tokensSeen {
        nextPageToken := None;
      } else {
        nextPageToken := normalized;
        tokensSeen := Remember(tokensSeen, token);
      }
    }

    method PrimaryAnswers(forGeneration: nat, reply: Reply)
      requires Valid()
      modifies this
      ensures View() == Next(old(View()), Event.PrimaryAnswers(forGeneration, reply)) && Valid()
    {
      StepKeepsInv(View(), Event.PrimaryAnswers(forGeneration, reply));
      if forGeneration != generation || !awaiting {
        return;
      }
      awaiting := false;
      match LoadJobs(reply, None) {
        case Error(_) =>
        case NotAvailable =>
          hasLoaded := false;
        case Page(page, next) =>
          AddIds(page);
          lastLoaded := LastOf(page);
          jobs := page;
          TakeToken(next);
          hasLoaded, loaded := true, true;
      }
    }

    method MoreStarts()
      requires Valid()
      modifies `more, `nextController
      ensures View() == Next(old(View()), Event.MoreStarts) && Valid()
    {
      if nextPageToken.None? || more.Some? {
        return;
      }
      more := Some(nextController);
      nextController := nextController + 1;
    }

    /** The checks come before any change; the token is looked at after the page is taken. */
    method TakePage(page: seq<Job>, next: Option<Text>)
      modifies `jobs, `jobIdsSeen, `lastLoaded, `nextPageToken, `tokensSeen
      ensures Continues(old(View()), page) ==>
        && jobs == MergeById(old(jobs), page) && jobIdsSeen == old(jobIdsSeen) + Ids(page)
        && lastLoaded == if page == [] then old(lastLoaded) else LastOf(page)
      ensures Continues(old(View()), page) ==>
        match RecordNextPageToken(old(tokensSeen), next)
        case Err(_) => nextPageToken.None? && tokensSeen == old(tokensSeen)
        case Ok(token) => nextPageToken == token && tokensSeen == Remember(old(tokensSeen), next)
      ensures !Continues(old(View()), page) ==>
        && nextPageToken.None? && jobs == old(jobs) && jobIdsSeen == old(jobIdsSeen)
        && lastLoaded == old(lastLoaded) && tokensSeen == old(tokensSeen)
    {
      if lastLoaded.Some? && page != [] && !Newer(lastLoaded.value, page[0]) {
        nextPageToken := None;
        return;
      }
      if exists i | 0 <= i < |page| :: page[i].id in jobIdsSeen {
        assert exists j | j in page :: j.id in jobIdsSeen;
        nextPageToken := None;
        return;
      }
      AddIds(page);
      if page != [] {
        lastLoaded := LastOf(page);
      }
      jobs := MergeById(jobs, page);
      TakeToken(next);
    }

    method MoreAnswers(controller: nat, reply: Reply)
      requires Valid()
      modifies this
      ensures View() == Next(old(View()), Event.MoreAnswers(controller, reply)) && Valid()
    {
      StepKeepsInv(View(), Event.MoreAnswers(controller, reply));
      if more != Some(controller) {
        return;
      }
      more := None;
      match LoadJobs(reply, nextPageToken) {
        case NotAvailable =>
          nextPageToken := None;
        case Error(failure) =>
          if StopsPaging(failure) {
            nextPageToken := None;
          }
        case Page(page, next) =>
          TakePage(page, next);
      }
    }
  }
}
