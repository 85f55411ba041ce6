# Verified model of the console's protocols and notations

The web console keeps long-lived client state against a server that may answer late, twice or
wrongly: a search monitor that falls back from a socket to REST, an audit view that pages through
opaque cursors, a library of saved searches that is refreshed while it is being edited, modal
surfaces that overlap. It also has a few notations of its own: byte quantities, durations, bounded
diagnostics, copy names, index-name lists and routed paths. This project models that code in Dafny
and proves what it guarantees in every run and for every text.

`dafny verify dfyconfig.toml` checks the whole project.

## Shape

Code that computes a value is a function with lemmas about it. Code that changes things step by step
is a class with the fields of the source, whose methods are proved against step functions on values;
the whole-run properties are lemmas about sequences of those steps.

- `JobMonitorSpec`, `JobMonitorRuns`, `JobMonitorEffects`, `JobMonitorProgress`, `JobMonitorFate`, `JobMonitor`: the
  recovery scheduler of `monitorBackendJob`. The end of a cycle's body and its `finally`, and the return of a GET
  and the clearing of its shared promise, are separate steps, so everything else may come in between. A snapshot
  for a superseded search is an error, and a GET issued under an already aborted signal only fails
  (lib/api/protobuf-transport.ts:329-331).
- `Pagination`, `AuditPages`, `AuditTraversalSpec`, `AuditTraversalRuns`, `AuditTraversal`,
  `AuditHonestServer`: the audit views. The server's reply is any value at all. The last module is the
  other half of the safety results: the checks refuse no honest server.
- `ModalSurface`: reference counts over a mutable element tree, with ghost sets of open surfaces. The
  chain of parents above a container is a ghost parameter, which is also what makes the walk end.
- `LibrarySpec`, `LibraryRuns`, `LibraryEffects`, `LibraryOrigins`, `Library`: the record map and the display list of
  a paged library, what each answer and edit does to them, and a record of which refresh, for which app, its
  pages come from.
- `LiveJobs`, `LiveJobsHonest`: the newest-first job list, per-page checks and cross-page checks together, and again
  that they refuse no honest server.
- `QuantityText`, `ByteQuantity`, `ByteSummary`: the byte-quantity notation. The pattern is a scan that is
  proved to find exactly the spellings of a declarative grammar.
- `Utf8`, `BoundedDiagnostics`, `CopyNames`: UTF-8 lengths over UTF-16 text, truncation on code-point
  boundaries, the diagnostic recorder and registry, and the names of copies.
- `IndexNames`, `HecOperations`, `ViewNavigation`: index-name lists, operational durations and
  histograms, routed paths.
- `Wrappers`, `JsText`, `Arithmetic`: shared definitions. A text is a sequence of 16-bit code units, as in
  JavaScript; `trim` removes what ECMAScript calls white space, the byte-order mark included.

## What the proofs found

Where an expected property does not hold of the code, the exact condition is proved in its place.

- **A cursor can be lost.** An audit page token of nothing but white space passes the canonical check
  when it begins with U+FEFF, because that check uses Go's notion of space, and is then trimmed to
  nothing by `recordNextPageToken`. The view then shows a list shorter than its total with neither a
  cursor nor an error (`LostCursorLeavesListShort`). A finished list is complete if and only if its last
  page carried no token (`FinishedIsComplete`), and always so when no reply carries such a token
  (`VisibleTokensFinishComplete`).
- **Durations in a point-grouping locale are ambiguous.** With "." between groups of three, 1234 seconds
  and 1.234 seconds read alike (`PointGroupingIsAmbiguous`). In any locale the text determines the duration
  if and only if the locale writes different whole numbers differently and none of them like another one
  with a fraction (`DurationTextDetermines`); for groups of three and any separator that means a separator
  other than a single point (`GroupedTextDetermines`).
- **A revoked monitor can stay unsettled for good.** A started, unsettled monitor never settles without an
  abort if and only if it is superseded, or was aborted before its listener existed, and its cycle is
  spent and no resynchronization handler has or gets a terminal job (`NeverSettlesIff`). With no such
  handler, superseding a live monitor has that effect in exactly three windows: between a cycle's body and
  its `finally`, while an active snapshot has been received but the shared promise not cleared, and after
  that while the body has not seen it (`SupersededNeverSettlesIff`). No run from any other revoked state
  loses the chance to settle, except that a terminal answer may be cleared with nobody waiting for it, or
  the timer may fire before an active answer is cleared (`MayFallMuteIff`). `SupersededWhileAnswered` is a run
  from the start. In the workspace canceling a search supersedes it and aborts the current request's signal
  (app/search-workspace.tsx:5223-5224); a retained-job launch monitors under a signal of its own (2898-2910)
  and is the case that stays unsettled. A monitor aborted before it was started never settles, with or
  without a socket (`AbortedBeforeStartNeverSettles`).
- **An urgent request may be served by an older answer.** Its cycle joins a GET that was already shared. The
  answer is newer than the request if and only if no GET was shared then or it was cleared before the
  immediate timer fired (`UrgentAnswerIsNewIff`; `UrgentMayJoinAnOlderGet` is a run from the start).
- **The library trusts its pages.** The client never checks a page for repeated ids. Map and list agree
  throughout a run if and only if no refresh that is applied repeats an id and no page that is merged repeats
  an id new to the list (`AgreesThroughoutIff`, `RepeatedIdSplitsTheLibrary`).
- **A load-more may join the wrong refresh.** Started while a refresh is unanswered, it takes the old cursor
  under the new epoch; its page is then merged into the refreshed list and its cursor replaces the new one
  (`EarlyLoadMoreMixesPages`). That can happen to a load-more if and only if a refresh is unanswered when it
  starts (`LoadMoreTurnsForeignIff`, `PatientRunsStayClean`). The dialogs hide the button while the library is
  loading (app/search-workspace/components/workspace-dialogs.tsx:446, 620; app/search-workspace.tsx:7644-7645,
  7707-7708), so the function allows it and the shipped view does not.
- **A list may be another app's.** A refresh's answer is fenced by its epoch alone. A list of the selected app can
  become another app's, without any change of app, if and only if a refresh that asked for another app is
  unanswered (`ListLeavesAppIff`, `LoyalRunsShowSelectedApp`). Two inputs: a catalog fallback to no app empties
  the list but starts no refresh (app/search-workspace.tsx:2062-2075; `FallbackShowsOldApp`), and a finished
  search refreshes the history with the bootstrap it was started with (app/search-workspace.tsx:4630;
  `OlderBootstrapShowsItsApp`).
- **After a failed reload the job list and its memory differ.** The old jobs stay on screen while the set
  of seen ids and the last job are empty; no cursor is left to page on with. They agree if and only if the
  generation's first page is in or the list is empty (`RememberedIffLoaded`, `FailedReloadKeepsOldList`).
- **`formatByteQuantity` never writes the shortest text.** Its comment says it does (lib/byte-quantity.ts:123),
  but the space it writes is optional for the reader (`FormatIsNeverShortest`).
- **A summary reads back exactly when nothing was rounded or grouped** (`SummaryReadsBack`).
- The flags `iu` let `[a-z]` match U+017F and U+212A as well; the second is lower-cased to "k", so it
  works in "kB". The scan models that.

## Model

| member | source | states |
|---|---|---|
| JobMonitorRuns.ExactlyOneRecovery | app/search-workspace.tsx:4087-4172 | in every reachable state of a started monitor that is unsettled, not aborted and current, exactly one of "timer armed" and "cycle in flight" holds; at most one GET is outstanding, the promise settles at most once, the backoff index stays in the table |
| JobMonitorRuns.ReachableInv | app/search-workspace.tsx:4047-4177 | the inductive invariant behind it is kept by any sequence of timer, GET, cycle, socket, resync, abort and supersede steps |
| JobMonitorRuns.StepKeepsInv | app/search-workspace.tsx:4087-4177 | each single step keeps that invariant, wherever it comes between the others |
| JobMonitorRuns.SettledForever | app/search-workspace.tsx:4066-4088 | once settled, the one outcome stays and no timer is ever armed again, whatever still arrives |
| JobMonitorRuns.SilentOnlyWhenRevoked | app/search-workspace.tsx:4157-4169 | a reachable started, unsettled monitor with neither timer nor cycle was superseded, or was aborted before its abort listener existed |
| JobMonitorFate.NeverSettlesIff | app/search-workspace.tsx:4088-4169 | which started, unsettled states never settle in any run without an abort, with or without socket events: exactly the revoked ones whose cycle is spent and whose handlers have and get no terminal job |
| JobMonitorFate.SupersededNeverSettlesIff | app/search-workspace.tsx:4121-4162 | superseding a live monitor leaves it unsettled for good exactly before a `finally`, or with an active answer received or resumable, and no terminal answer for a handler |
| JobMonitorFate.SupersededWhileAnswered | app/search-workspace.tsx:4109-4137 | a run from the start that is superseded with an active snapshot on its way to the body and never settles |
| JobMonitorFate.MayFallMuteIff | app/search-workspace.tsx:4102-4162 | which revoked states some run can still bring there; in all others every run leaves the monitor settled or able to settle |
| JobMonitorRuns.SupersededBeforeFinally | app/search-workspace.tsx:4157-4162 | the first of those windows step by step: superseded in it, a live monitor is idle, timerless and unsettled right after the `finally` |
| JobMonitorRuns.AbortedBeforeStartNeverSettles | app/search-workspace.tsx:4259-4266 | a monitor whose signal was aborted before the listener was added never settles in any run, whatever a socket brings |
| JobMonitorRuns.UrgentRaises | app/search-workspace.tsx:4087-4099 | a zero-delay request in any state with the invariant leaves the immediate timer armed or the pending flag set |
| JobMonitorRuns.UrgentNeverLost | app/search-workspace.tsx:4087-4107 | that stays so through any events until a timer fires: ordinary traffic neither drops nor postpones it |
| JobMonitorRuns.UrgentReachesNextCycle | app/search-workspace.tsx:4094-4106 | from any reachable state, the timer that ends the wait is the immediate one and firing it starts a fresh cycle |
| JobMonitorFate.UrgentAnswerIsNewIff | app/search-workspace.tsx:4109-4123 | the cycle serving an urgent request waits for a GET issued after the request if and only if none was shared then or that one was cleared before the timer fired |
| JobMonitorFate.UrgentMayJoinAnOlderGet | app/search-workspace.tsx:4455-4464 | a run from the start whose urgent request is served by the GET of an earlier resynchronization |
| JobMonitorRuns.CanAlwaysSettle | app/search-workspace.tsx:4109-4169 | from every live state with the invariant some bounded continuation settles the promise: no deadlock |
| JobMonitorProgress.SettlesInevitably | app/search-workspace.tsx:4087-4177 | from every live state with the invariant, any run with terminal answers and no abort or supersede has settled after a bounded number of own steps, three more for each resynchronization, whatever the socket brings |
| JobMonitorProgress.EnergyIsSmall | app/search-workspace.tsx:4087-4177 | that number is at most eleven and one for each resynchronization handler that waits or holds an answer |
| JobMonitorProgress.AlwaysAnOwnStep | app/search-workspace.tsx:4102-4169 | while it has not settled there always is such an own step to take |
| JobMonitorRuns.BackoffClimbsTheTable | app/search-workspace.tsx:4100-4106 | after k quiet rounds of retryable answers the monitor waits for entry min(attempt + k, 3) of the delay table |
| JobMonitorEffects.ArmedDelay | app/search-workspace.tsx:4096-4106 | in every run, the ordinary timer of a live monitor waits 1,500, 2,500, 5,000 or 10,000 ms for no, one, two or more retries since the last live traffic, whatever came before that |
| JobMonitorEffects.TrafficResetsBackoff | app/search-workspace.tsx:4174-4177 | a waiting monitor that gets ordinary traffic waits 1,500 ms with the backoff reset, however many retries it had made |
| JobMonitorEffects.ResyncResetsBackoff | app/search-workspace.tsx:4454-4484 | so does one whose resynchronization handler resumes with an active job |
| JobMonitorEffects.RoundsAfterTraffic | app/search-workspace.tsx:4100-4177 | k quiet retryable rounds after traffic wait for entry min(k, 3), from any waiting state |
| JobMonitorEffects.FirstTimer | app/search-workspace.tsx:4263-4266 | the executor ends by asking at once without a socket, and by waiting 1,500 ms with one |
| JobMonitorEffects.AnswerDecides | app/search-workspace.tsx:4121-4156 | for a wanted search: an active job goes on, a terminal one resolves, a status in 400-499 but 408 and 429 rejects, 410 also marks the results expired, anything else goes on |
| JobMonitorEffects.FailureRejectsRevoked | app/search-workspace.tsx:4138-4142 | any failure rejects a monitor that is no longer wanted, and marks nothing expired |
| JobMonitorEffects.HandlerDecides | app/search-workspace.tsx:4454-4484 | a resumed resynchronization handler resolves with a terminal job, stays unsettled with an active one and does nothing for a failure |
| JobMonitorEffects.AbortRejects | app/search-workspace.tsx:4259-4261 | an abort that is heard rejects the promise and clears the timer |
| JobMonitorEffects.AnswerReachesAll | app/search-workspace.tsx:4109-4116 | the one answer of a shared GET goes to the waiting cycle and to every waiting handler |
| JobMonitorEffects.GapUntilSnapshot | app/search-workspace.tsx:4123-4130 | a sequence gap stays noted through any step until a cycle gets a snapshot |
| JobMonitor.Monitor.ScheduleRecovery | app/search-workspace.tsx:4087-4107 | the whole new state: refused when stopped, pending while a cycle runs, never replacing an immediate timer, otherwise the given or the table's delay |
| JobMonitor.Monitor.AcceptFailure | app/search-workspace.tsx:4138-4156 | which failures reject, which mark the results expired (410) and which retry (408, 429, others) |
| JobMonitor.Monitor.CycleFinally | app/search-workspace.tsx:4157-4169 | frees the cycle, then honours the pending urgent request before the ordinary one |
| JobMonitor.Monitor.Handle | app/search-workspace.tsx:4047-4495 | the mutable monitor takes exactly the step of the model on each event and keeps the invariant |
| Pagination.LostTokens | lib/api/pagination.ts:43-49 | a canonical token is normalized away if and only if it is all white space, and then starts with U+FEFF |
| Pagination.ByteOrderMarkIsLost | lib/search/server-text.ts:4-47 | the token U+FEFF alone is canonical and is normalized away |
| Pagination.TokenTakenIff | lib/search/server-text.ts:4-47 | a page token is taken if and only if it is empty, or at most 2,048 encoded octets without lone surrogates, controls or white space at an edge other than U+FEFF; an empty one means none |
| Pagination.GoSpaceIsAlmostSpace | lib/search/server-text.ts:4-47 | the white space of the canonical check is that of trim, with U+0085 and without U+FEFF |
| AuditPages.AdjacentIsDescending | app/activity/backend-audit-data.ts:333-339 | the neighbour check of the loop makes the whole page strictly descending |
| AuditPages.LoadedPage | app/activity/backend-audit-data.ts:301-346 | what any accepted page guarantees: order, positive sequences, counts within page size and total, a full page before a token, a canonical token, a complete only page |
| AuditPages.AcceptedIff | app/activity/backend-audit-data.ts:209-346 | a reply is accepted if and only if the request is in range and each event, the order and the metadata are in order by their own fields: a version in 1..2^63-1 equal to an exact minimum and at least any other, a sequence in 1..100,000, an exact total, a full page before a new token; the page is then exactly what was listed |
| AuditTraversalRuns.AccumulatedList | app/activity/backend-audit-views.tsx:108-193 | at any moment of any run the list is strictly descending and so duplicate-free, never longer than its total; a live cursor means strictly fewer items and exactly pages times page size |
| AuditTraversalRuns.ReachableInv | app/activity/backend-audit-views.tsx:108-193 | the traversal's invariant is kept by any events and any replies |
| AuditTraversalRuns.FinishedTraversal | app/activity/backend-audit-views.tsx:120-187 | a finished list whose items come from a set of its total's size is that set, descending, in exactly max(1, ceil(total / pageSize)) accepted pages, with sequence >= total - i at place i |
| AuditTraversalRuns.FinishedIsComplete | app/activity/backend-audit-views.tsx:163-187 | no cursor and no error: the list has exactly its total if and only if its last page carried no token |
| AuditTraversalRuns.VisibleTokensFinishComplete | app/activity/backend-audit-views.tsx:163-187 | without all-white-space tokens in the replies, no cursor and no error means exactly the total |
| AuditTraversalRuns.LostCursorLeavesListShort | app/activity/backend-audit-views.tsx:122-126 | with one, a run that ends with one of two events, no cursor and no error |
| AuditTraversalRuns.ContinuationGrows | app/activity/backend-audit-views.tsx:163-178 | every accepted continuation brings the list strictly closer to the unchanged total |
| AuditTraversalRuns.CompleteIsTheSet | app/activity/backend-audit-views.tsx:163-170 | as many items as a set they all come from are that set |
| AuditTraversalRuns.DescendingUnique | app/activity/backend-audit-data.ts:333-339 | two strictly descending lists of one set agree at every place |
| AuditTraversalRuns.CompleteTakesExactlyItsPages | app/activity/backend-audit-views.tsx:163-178 | a complete list took exactly max(1, ceil(total / pageSize)) accepted pages |
| AuditTraversalRuns.SequenceFloor | app/activity/backend-audit-data.ts:237-238 | in a descending list of positive sequences, place i is at least length - i |
| AuditTraversalRuns.StaleAnswersAreDropped | app/activity/backend-audit-views.tsx:108-136 | an answer to a request from before a reload changes nothing, however late |
| AuditHonestServer.HonestServerIsShown | app/activity/backend-audit-views.tsx:108-193 | whatever list an honest server pages through, of events in order by their own fields, the run from the start shows exactly that list without error, through any number of failed first loads that are reloaded and failed continuations that keep the cursor and are tried again |
| AuditHonestServer.ReloadShowsHonestServer | app/activity/backend-audit-views.tsx:96-193 | so does a reload from any state at all: nothing of the earlier traversal gets in the way |
| AuditHonestServer.FailureKeepsCursorIff | app/activity/backend-audit-views.tsx:179-192 | a failed continuation leaves the list, shows its error, and gives the cursor up for a 400 and for a broken traversal only |
| AuditHonestServer.FailedLoadIsShown | app/activity/backend-audit-views.tsx:118-132 | a failed first load shows its error and nothing else, and one of an older generation changes nothing |
| AuditHonestServer.RefusedPageStops | app/activity/backend-audit-views.tsx:145-192 | a continuation that is refused leaves list and memory as they were and gives the cursor up |
| AuditHonestServer.HonestPageLoads | app/activity/backend-audit-data.ts:315-345 | the page checks accept every page of events in order, with their versions, sequences and counts given in their own fields, and return its events and token |
| AuditHonestServer.HonestPageContinues | app/activity/backend-audit-views.tsx:153-170 | and the checks across pages accept its continuations |
| AuditHonestServer.FailedTry | app/activity/backend-audit-views.tsx:179-192 | a continuation that fails without a stopping error changes nothing but the error shown |
| AuditHonestServer.PageNumbersAreHonest | app/activity/backend-audit-data.ts:149-159 | tokens that such a server needs exist for every list: decimal page numbers are canonical, survive trimming and differ |
| AuditTraversal.Traversal.Reload | app/activity/backend-audit-views.tsx:90-117 | clears everything shown and remembered and retires what is in flight |
| AuditTraversal.Traversal.InitialAnswers | app/activity/backend-audit-views.tsx:118-132 | the first page or its error, for the current controller only |
| AuditTraversal.Traversal.LoadMore | app/activity/backend-audit-views.tsx:144-149 | starts one continuation, and only with a cursor and none in flight |
| AuditTraversal.Traversal.CheckContinuation | app/activity/backend-audit-views.tsx:153-175 | the checks in the source's order accept exactly what continues the list with a fresh token; nothing is remembered on refusal |
| AuditTraversal.Traversal.MoreAnswers | app/activity/backend-audit-views.tsx:150-193 | appends an accepted page, or keeps the list and gives the cursor up exactly for the stopping errors |
| AuditTraversal.Traversal.RecordToken | lib/api/pagination.ts:43-53 | null for nothing, an error for a repeated token, otherwise remembered and returned |
| ModalSurface.ModalSurfaces.LockBodyScroll | app/_components/modal-surface.ts:23-28 | saves the overflow at the first lock and hides it |
| ModalSurface.ModalSurfaces.UnlockBodyScroll | app/_components/modal-surface.ts:29-33 | restores the original overflow exactly at the last unlock |
| ModalSurface.ModalSurfaces.Retain | app/_components/modal-surface.ts:49-53 | takes a reference unless the element is inert for reasons of its own; every count stays the number of managing surfaces |
| ModalSurface.ModalSurfaces.Drop | app/_components/modal-surface.ts:59-65 | gives one reference back and frees the element at the last; every count stays right |
| ModalSurface.ModalSurfaces.RetainSiblings | app/_components/modal-surface.ts:43-54 | one level of the walk manages exactly the candidate siblings, each once |
| ModalSurface.ModalSurfaces.InertOutsideSurface | app/_components/modal-surface.ts:35-56 | the walk ends and manages, each once, exactly the elements outside the container that were not inert on their own; all are inert, no other changes |
| ModalSurface.ModalSurfaces.RestoreOutsideSurface | app/_components/modal-surface.ts:57-67 | a release gives back exactly that surface's references, whatever came or went meanwhile |
| ModalSurface.ModalSurfaces.Install | app/_components/modal-surface.ts:75-86 | adds one surface over any others: each HTML sibling of the container or an ancestor below the body that has no excluded class becomes inert and is counted once more unless it was inert on its own account; every other element, excluded and non-HTML ones too, keeps its inertness and its count; every body element neither inside the container nor above it has an inert, excluded or non-HTML ancestor-or-self |
| ModalSurface.ModalSurfaces.Release | app/_components/modal-surface.ts:112-117 | removes one open surface in any order and keeps every count |
| ModalSurface.ModalSurfaces.Operate | app/_components/modal-surface.ts:35-68 | through any further installs and releases in any order, everything that was outside a surface at its install stays inert as long as it is open |
| ModalSurface.ModalSurfaces.AllReleased | app/_components/modal-surface.ts:29-33 | with no surface open each element and the body's overflow are the originals and no count is left |
| ModalSurface.ModalSurfaces.InertWhileManaged | app/_components/modal-surface.ts:49-66 | an element's count is the number of open surfaces managing it; it is inert if and only if it was originally or one does |
| ModalSurface.ModalSurfaces.CoveredIsInert | app/_components/modal-surface.ts:49-66 | what an open surface manages, or was inert before, is inert |
| ModalSurface.OutsideIsShielded | app/_components/modal-surface.ts:41-56 | the tree argument behind that last clause: once what is outside is inert, each chain up to the body passes such an element |
| ModalSurface.AncestorsAreNotOutside | app/_components/modal-surface.ts:43-48 | the container and its ancestors are never candidates |
| LibraryRuns.LibraryAgrees | app/search-workspace.tsx:2238-2344 | from an empty library, through any interleaving, map and list always have the same ids, no row repeats and each row is the display form of its record, if and only if every page taken fits |
| LibraryRuns.ReachableInv | app/search-workspace.tsx:2238-2344 | from any state with the invariant, every run whose pages fit keeps it |
| LibraryRuns.AgreesThroughoutIff | app/search-workspace.tsx:2238-2344 | from any agreeing state, map and list agree after every event if and only if each page taken repeats no id that matters |
| LibraryRuns.DistinctPagesFit | app/search-workspace.tsx:2252-2319 | a server that lists no id twice within one page always fits |
| LibraryRuns.MergeIsDistinct | app/search-workspace.tsx:453-467 | merged rows are distinct if and only if the page repeats no id new to the list; the ids are those of both |
| LibraryRuns.MergeAgrees | app/search-workspace.tsx:2314-2319 | map and list merge one page into agreement if and only if it repeats no id new to the list |
| LibraryRuns.FreshListAgrees | app/search-workspace.tsx:2266-2267 | a refreshed map and list agree |
| LibraryRuns.RefreshIsDistinct | app/search-workspace.tsx:2261-2267 | refreshed rows, pinned record included, are distinct if and only if the page repeats no id |
| LibraryRuns.RepeatedIdSplitsTheLibrary | app/search-workspace.tsx:453-467 | a page that repeats a new id leaves two rows for it |
| LibraryRuns.StoreKeepsAgree | app/search-workspace.tsx:6499-6506 | putting a returned record first keeps the agreement |
| LibraryRuns.RemoveKeepsAgree | app/search-workspace.tsx:4633-4641 | removing a record and its row keeps the agreement |
| LibraryEffects.RefreshKeepsPinned | app/search-workspace.tsx:2261-2267 | a refresh never loses the pinned record: a page that lists it is shown as it is, and before any other page the pinned row goes first and its record is held as it was |
| LibraryEffects.RefreshShowsPage | app/search-workspace.tsx:2261-2274 | without a pinned record, or with one that it lists, the refreshed rows are the page's records in order and the map holds the last record of each id |
| LibraryEffects.PinnedIsLostIff | app/search-workspace.tsx:2254-2267 | a pinned record that is held and shown is lost by an event if and only if that removes it or empties the library |
| LibraryEffects.PinnedIsKept | app/search-workspace.tsx:2243-2374 | through any run that keeps it pinned and neither removes it nor empties the library, a pinned record is held and shown |
| LibraryEffects.RefreshFails | app/search-workspace.tsx:2254-2279 | an unavailable library is emptied; a failed refresh keeps rows and records and loses the cursor |
| LibraryEffects.OldRefreshChangesNothing | app/search-workspace.tsx:2251-2253 | an aborted or overtaken refresh changes nothing at all |
| LibraryEffects.MoreAppendsPage | app/search-workspace.tsx:453-467 | a merged page leaves every row in its place, in its new form if listed, and appends exactly the records not listed before, in page order |
| LibraryEffects.MoreFails | app/search-workspace.tsx:2304-2343 | an answer under another epoch or app changes nothing; a failed one frees the lock alone; an unavailable one also loses the cursor; only the newest load-more frees the lock |
| LibraryEffects.PagesLeaveCursor | lib/api/pagination.ts:43-53 | after any page that is taken the cursor is its trimmed token, unless that is blank or was given before |
| LibraryEffects.StoredIsFirst | app/search-workspace.tsx:2368-2373 | a stored record is held and shown first, and the other rows keep their order |
| LibraryEffects.RemovedIsGone | app/search-workspace.tsx:2381-2383 | a removed record is in neither rows nor records, and the others keep their order |
| LibraryEffects.ClearsEmpty | app/search-workspace.tsx:2062-2075 | a cleared history and another app leave nothing; only the app frees the pin, and a fallback to none opens no epoch |
| LibraryEffects.HonestServerIsListed | app/search-workspace.tsx:2238-2331 | after a refresh from any state, every page of a server without repeated ids and with visible, different tokens can be loaded, and the rows are all its records in its order |
| LibraryRuns.LateAnswersAreDropped | app/search-workspace.tsx:2305-2308 | a page or refresh requested under an older refresh epoch is never merged |
| LibraryRuns.OneLoadMoreAtATime | app/search-workspace.tsx:2295-2301 | two load-mores of the current epoch and app are never in flight together |
| LibraryOrigins.PatientRunsStayClean | app/search-workspace.tsx:2291-2324 | in every run that starts no load-more under an unanswered refresh, each merged page and the cursor continue the refresh the list began with |
| LibraryOrigins.LoadMoreTurnsForeignIff | app/search-workspace.tsx:2294-2308 | from a clean state a load-more can come to be merged into another refresh's list if and only if a refresh is unanswered when it starts |
| LibraryOrigins.EarlyLoadMoreMixesPages | app/search-workspace.tsx:2243-2324 | a run from the start in which it is: the first refresh's page and cursor end up in the second's list |
| LibraryOrigins.ListLeavesAppIff | app/search-workspace.tsx:2250-2274 | a list of the selected app can become another app's without a change of app if and only if a refresh that asked for another app is unanswered |
| LibraryOrigins.LoyalRunsShowSelectedApp | app/search-workspace.tsx:2062-2075 | every run that refreshes for the selected app only and leaves no refresh behind at a fallback shows the selected app's list |
| LibraryOrigins.FallbackShowsOldApp | app/search-workspace.tsx:2062-2075 | after a fallback to no app the old app's late answer fills the emptied list |
| LibraryOrigins.OlderBootstrapShowsItsApp | app/search-workspace.tsx:4630 | a refresh with an older bootstrap shows that bootstrap's app under the selected one |
| Library.PagedLibrary.StartRefresh | app/search-workspace.tsx:2243-2246 | opens a new epoch, frees the lock, forgets the tokens |
| Library.PagedLibrary.FinishRefresh | app/search-workspace.tsx:2254-2283 | the new map, list, cursor and availability for each kind of answer, the pinned record first |
| Library.PagedLibrary.RefreshAnswers | app/search-workspace.tsx:2250-2288 | an overtaken or aborted refresh changes nothing; the invariant is kept if and only if the page fits |
| Library.PagedLibrary.StartMore | app/search-workspace.tsx:2294-2301 | takes the lock once and remembers epoch and app |
| Library.PagedLibrary.ApplyMore | app/search-workspace.tsx:2309-2331 | the merged map and list and the next cursor for each kind of answer |
| Library.PagedLibrary.MoreAnswers | app/search-workspace.tsx:2304-2343 | merges only under the same epoch and app, frees the lock only for the newest, keeps the invariant if and only if the page fits |
| Library.PagedLibrary.TakeToken | lib/api/pagination.ts:43-53 | a repeated cursor stops the paging, any other is remembered |
| Library.PagedLibrary.Store | app/search-workspace.tsx:2368-2373 | map and list after a save, rename, duplicate or reload |
| Library.PagedLibrary.Remove | app/search-workspace.tsx:6568-6569 | map and list after a delete, or a reload that found nothing |
| Library.PagedLibrary.ClearHistory | app/search-workspace.tsx:6671-6685 | a cleared history is empty under a new epoch |
| Library.PagedLibrary.SelectApp | app/search-workspace.tsx:2062-2075 | another app empties map, list, cursor and pin; only a fallback to no app starts no refresh |
| QuantityText.ScanFindsSpelling | lib/byte-quantity.ts:94-107 | whatever the grammar of a quantity spells, the pattern's scan finds, with the same captures |
| QuantityText.ScanIsSpelling | lib/byte-quantity.ts:94-107 | and it finds nothing else |
| ByteQuantity.EvaluateExact | lib/byte-quantity.ts:110-119 | the two-part integer arithmetic yields r if and only if the exact decimal times the unit is r bytes |
| ByteQuantity.ParseExact | lib/byte-quantity.ts:106-120 | parsing yields r if and only if the text spells a decimal with a known suffix that is exactly r bytes |
| ByteQuantity.PrefixedQuantityReads | lib/byte-quantity.ts:70-120 | a decimal with the k-th prefix is read as r bytes if and only if it is exactly r times 1000^k before "b" and 1024^k before "ib": with or without a plus, in any case, after any white space |
| QuantityText.PrefixMeans | lib/byte-quantity.ts:70-83 | the k-th of the letters k, m, g, t, p means 1000^k before "b" and 1024^k before "ib" |
| QuantityText.OtherSuffixes | lib/byte-quantity.ts:70-83 | nothing and "b" mean one byte, and there is no other suffix |
| QuantityText.UnitsAreBinary | lib/byte-quantity.ts:53-58 | the units that are written are the powers of 1024, largest first, the fifth for display only |
| ByteQuantity.ParseIgnoresZeros | lib/byte-quantity.ts:110-119 | leading zeros and zeros after the fraction never change the result |
| ByteQuantity.FormatPicksLargest | lib/byte-quantity.ts:130-135 | a positive count is written in the largest listed unit that divides it |
| ByteQuantity.FormatRoundTrip | lib/byte-quantity.ts:106-139 | parse(format(n)) is n for every n >= 0 and null for every negative n |
| ByteQuantity.FormatIsNeverShortest | lib/byte-quantity.ts:122-139 | the same text without its space is shorter and reads back as the same count |
| ByteSummary.SummaryIsClose | lib/byte-quantity.ts:176-181 | the displayed magnitude is within half a tenth of its unit of the true count, and a half is rounded up |
| ByteSummary.SummaryIsRounded | lib/byte-quantity.ts:173-182 | a count below 1024 is shown as it is, any other in the largest power of 1024 it reaches as its nearest tenths, grouped in threes; a negative one as "0 B" |
| ByteSummary.SummaryIsMonotone | lib/byte-quantity.ts:173-181 | it never decreases, also across unit boundaries, and below the top unit is at most 1,024 of its unit |
| ByteSummary.SummaryDenotes | lib/byte-quantity.ts:173-181 | without its commas the summary parses to r if and only if r is exactly its tenths of its unit |
| ByteSummary.SummaryReadsBack | lib/byte-quantity.ts:173-181 | the summary parses to the count it was made from if and only if nothing was rounded or grouped |
| ByteSummary.DescribeIsExact | lib/byte-quantity.ts:194-196 | without its commas the echo is the exact count and its word |
| JsText.GroupPlaces | lib/byte-quantity.ts:85 | grouping puts the separator in every fourth place from the right and nowhere else |
| Utf8.ByteLengthCountsOctets | integration/browser_harness.ts:99-104 | the byte ranges count exactly the octets of the encoding of section 3 of RFC 3629, three for a lone surrogate |
| Utf8.EncodeDenotes | integration/browser_harness.ts:99-104 | the octets of a code point decode to it, U+FFFD for a surrogate, and are as few as 7, 11 or 16 bits allow |
| Utf8.PairOfCodePoint | integration/browser_harness.ts:86-95 | a surrogate pair is that of the code point it is read as |
| Utf8.PrefixEndIsLongest | integration/browser_harness.ts:86-95 | a code-point walk that stops at the first one too many ends on the longest prefix that fits |
| BoundedDiagnostics.BoundedDiagnostic | integration/browser_harness.ts:72-97 | the loop returns the specified truncation; limits outside 15..2^53-1 are refused, positive ones below 15 for the suffix |
| BoundedDiagnostics.BoundedFits | integration/browser_harness.ts:82-95 | the result always fits the limit |
| BoundedDiagnostics.BoundedKeepsWhatFits | integration/browser_harness.ts:86-97 | the input comes back unchanged if and only if it fits |
| BoundedDiagnostics.BoundedKeepsTheMost | integration/browser_harness.ts:82-94 | otherwise it is the longest prefix on a code-point boundary that leaves room for the suffix, and the suffix |
| BoundedDiagnostics.BoundedIdempotent | integration/browser_harness.ts:72-97 | bounding twice is bounding once |
| BoundedDiagnostics.BoundedRecorder.Add | integration/browser_harness.ts:26-32 | after any adds: the bounded forms of the first min(n, limit) values in order and the saturated count of the rest |
| BoundedDiagnostics.BoundedRecorder.Snapshot | integration/browser_harness.ts:33-37 | those values and, once anything was dropped, one line with the number dropped, saturated at 2^53-1, and "entry" for one |
| BoundedDiagnostics.NewRecorder | integration/browser_harness.ts:11-24 | which limits are refused and with which error first |
| BoundedDiagnostics.BoundedObservationRegistry.TryObserve | integration/browser_harness.ts:58-63 | attaches once per key and never beyond the maximum; every attached cleanup is held or has run, never both |
| BoundedDiagnostics.BoundedObservationRegistry.Clear | integration/browser_harness.ts:65-69 | after a clear every cleanup ever attached has run exactly once |
| CopyNames.TruncateUtf8ToByteLength | lib/search/saved-search-names.ts:16-27 | the longest prefix of whole code points that fits |
| CopyNames.NameFits | lib/search/saved-search-names.ts:29-36 | a name with any suffix that leaves room stays within 255 bytes |
| CopyNames.DuplicateNameKeepsName | lib/search/saved-search-names.ts:29-43 | a copy is called by the longest prefix of the trimmed name, in whole code points, that leaves "copy" and its number room in 255 bytes; by the whole name when that fits |
| CopyNames.RandomNameKeepsName | app/search-workspace.tsx:666-669 | so is a copy with a drawn identifier |
| CopyNames.DuplicateNameInjective | lib/search/saved-search-names.ts:38-43 | different copy numbers give different names, whatever is cut or trimmed |
| CopyNames.NextDuplicateSavedSearchName | app/search-workspace.tsx:6347-6362 | the loop ends with the first copy number whose name is neither visible nor tried, at most one past the names in use |
| CopyNames.InUseBound | app/search-workspace.tsx:6355-6360 | the pigeonhole behind that bound |
| CopyNames.DrawUntried | app/search-workspace.tsx:6414-6417 | the loop ends with the first random name not tried yet, whatever is drawn, as long as the draws keep varying |
| CopyNames.NumbersKeepVarying | app/search-workspace.tsx:666-669 | the draws that the loop needs exist: even successive numbers never run out, by the pigeonhole |
| CopyNames.ChooseName | app/search-workspace.tsx:6408-6418 | the kept name first, then the lowest free number's name eight times, then the first untried random one; never one already tried |
| CopyNames.AttemptDuplicate | app/search-workspace.tsx:6404-6435 | pairwise distinct names, each the one that is asked for after those before it, stopping at the first answer that is no conflict; the name is kept after another error and dropped after a conflict |
| CopyNames.DuplicateSavedSearch | app/search-workspace.tsx:6396-6439 | one click asks for 1 to 8 + 3 distinct names and gives up exactly after eleven conflicts |
| LiveJobs.AccumulatedJobs | app/activity/backend-live-jobs.tsx:282-362 | for any server, the list of a loaded generation is newest-first in (createdAt, id) and id-unique, and the seen ids are its ids |
| LiveJobs.RememberedIffLoaded | app/activity/backend-live-jobs.tsx:169-233 | the seen ids and the last job match the list if and only if the first page is in or the list is empty |
| LiveJobs.FailedReloadKeepsOldList | app/activity/backend-live-jobs.tsx:171-190 | a failed reload leaves the old list on screen with nothing remembered and no cursor |
| LiveJobs.AdjacentIsNewestFirst | lib/search/server-jobs.ts:214-234 | the neighbour check of one page orders the whole page |
| LiveJobs.MergeAppends | app/activity/backend-live-jobs.tsx:330-334 | filling a map by id with new ids is appending the page |
| LiveJobsHonest.HonestJobsAreShown | app/activity/backend-live-jobs.tsx:169-362 | after a reload from any state, every page of a server that lists jobs newest first, by creation time and id, without repeats and behind visible, different tokens can be loaded, and the list is all its jobs in its order |
| LiveJobsHonest.PageAcceptedIff | lib/search/server-jobs.ts:207-234 | a first page is accepted if and only if it has its metadata, repeats no id and is strictly newest first |
| LiveJobsHonest.FollowingPageIsAppended | app/activity/backend-live-jobs.tsx:307-340 | a page that follows the list is appended, also when its token was seen before: then only the cursor is given up |
| LiveJobsHonest.RefusedMore | app/activity/backend-live-jobs.tsx:307-329 | a page that repeats a loaded job or does not come after the last one changes nothing but the cursor |
| LiveJobsHonest.FailedMore | app/activity/backend-live-jobs.tsx:341-355 | a failed load-more keeps the list, and the cursor too unless it failed with a 400 or a broken traversal |
| LiveJobsHonest.FailedPrimary | app/activity/backend-live-jobs.tsx:215-267 | a failed first load keeps what is on screen; so does an unavailable one, but the next load starts empty |
| LiveJobsHonest.CancelReplacesRow | app/activity/backend-live-jobs.tsx:364-384 | an accepted cancellation changes that job's row only and loads the list again |
| LiveJobs.JobList.StartLoad | app/activity/backend-live-jobs.tsx:169-190 | a new generation forgets ids, order and cursor and keeps a list that had loaded |
| LiveJobs.JobList.PrimaryAnswers | app/activity/backend-live-jobs.tsx:203-233 | the first page, unavailability or error, for the current generation only |
| LiveJobs.JobList.MoreStarts | app/activity/backend-live-jobs.tsx:283-289 | one load-more at a time, and only with a cursor |
| LiveJobs.JobList.TakePage | app/activity/backend-live-jobs.tsx:307-340 | a page that continues the list is taken before its token is looked at; any other changes nothing but the cursor |
| LiveJobs.JobList.MoreAnswers | app/activity/backend-live-jobs.tsx:290-362 | the new state for every answer of the load-more in flight; every other answer is dropped |
| IndexNames.SplitLists | app/admin/admin-resource-data.ts:41-43 | splitting lists exactly the trimmed non-empty pieces, strictly sorted |
| IndexNames.PiecesJoinBack | app/admin/admin-resource-data.ts:41-43 | the pieces hold no comma, and with commas between them they are the text again |
| JsText.LessAtDifference | app/admin/admin-resource-data.ts:41-63 | the order of the sort: below at the first different unit, or by ending first |
| IndexNames.JoinSplitRoundTrip | app/admin/admin-resource-data.ts:27-50 | a list survives the form if and only if it is sorted, distinct, trimmed, non-empty and comma-free |
| IndexNames.SplitIsIdempotent | app/admin/admin-resource-data.ts:33-50 | splitting what joining a split list shows changes nothing |
| IndexNames.SameStringsIsMultisetEquality | app/admin/admin-resource-data.ts:59-63 | the comparison holds if and only if the lists are equal as multisets |
| HecOperations.FractionDenotes | app/admin/hec-operations.tsx:235 | the padded and stripped digits denote nanos / 10^9 exactly |
| HecOperations.NumberTextInjective | app/admin/hec-operations.tsx:230-237 | in a locale that tells whole numbers apart and writes none like a fraction, the number text determines seconds and nanos |
| HecOperations.DurationTextDetermines | app/admin/hec-operations.tsx:230-237 | in any locale the text determines every validated duration if and only if the locale writes different seconds differently and none like another with a fraction |
| HecOperations.PointFreeLocaleDetermines | app/admin/hec-operations.tsx:234-236 | so it does in every locale that tells whole numbers apart without a point, whatever its digits and group sizes |
| HecOperations.GroupedTextDetermines | app/admin/hec-operations.tsx:234-236 | with groups of three and any digit-free separator it does if and only if the separator is not a single point |
| HecOperations.PointGroupingIsAmbiguous | app/admin/hec-operations.tsx:234-236 | with a point, 1234 seconds and 1.234 seconds are written alike |
| HecOperations.TablesAscend | app/admin/hec-operations.tsx:12-22 | the three fixed bound tables are strictly increasing |
| HecOperations.LabelsPartition | app/admin/hec-operations.tsx:249-254 | a label names a value if and only if it is the label of that value's one bucket |
| HecOperations.ValidHistogramIff | app/admin/hec-operations.tsx:49-68 | a histogram is valid if and only if it has the table's bounds, one bucket more and only numbers in 0..2^64-1 |
| HecOperations.ValidHistogramCountsThePartition | app/admin/hec-operations.tsx:49-68 | a valid histogram counts exactly the bounds + 1 buckets of that partition |
| ViewNavigation.ResolvesToBuiltPath | lib/view-navigation.ts:22-35 | a pathname resolves to a view if and only if the view is routable and the pathname is, up to one final slash, its built path |
| ViewNavigation.RoutedRoundTrip | lib/view-navigation.ts:3-35 | resolving a built path returns the view if and only if the view is listed, non-empty and slash-free |
| ViewNavigation.RoutedPathInjective | lib/view-navigation.ts:8-10 | different views have different paths |
| ViewNavigation.BuiltPath | lib/view-navigation.ts:3-10 | a built path is the base path given, between slashes of its own or added, the view and a slash |

## Left out

- Rendering, focus movement, Escape and Tab handling, announcements and toasts: no state of the cores above.
- Timers, fetch, sockets and React scheduling are steps in any order; a committed state update is immediate, and the code between two awaits is one step.
- The preview, schema and progress revisions of the running search (`RunningSearchController` is not part of this model): a progress event is ordinary or urgent traffic.
- Exceptions thrown by `socket.subscribe`, by a `dispose` callback or by an observation's cleanup.
- Of an audit event only the sequence and the version policy are checked field by field; actor, target and date checks are one given boolean, and the table of action policies is a given policy per event. Audit filters are left out.
- HEC counters outside the histograms (`validSnapshotValues`) and the wording of bucket labels.
- The source of randomness of copy names: the identifiers drawn are a given sequence, of which it is required that the few names of one action never use up what is still to be drawn. A successful response that says "unavailable" counts as another error.
- Re-entrant calls of the observation registry from inside `attach` or a cleanup.
- Page code that changes an element's `inert` itself while a surface is open, and a release called twice: the page's own inertness is read when the element is first tracked, and `Release` needs an open surface.
- The 4,096-byte check of search-job page tokens and the adapter of a single search job.
- The URL and history functions of lib/view-navigation.ts (`routedViewHref`, `commitRoutedView`).
- App-form fields other than the index names.
- Jobs replaced in place by a cancel are modelled only together with the reload that follows.
- Demo mode, export dialogs, themes and lookup tables: only easy members.
