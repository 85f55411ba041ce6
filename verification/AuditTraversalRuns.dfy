/** What every traversal guarantees, for any server and any order of answers. */
module AuditTraversalRuns {
  import opened Wrappers
  import opened JsText
  import opened Arithmetic
  import opened Pagination
  import opened AuditPages
  import opened AuditTraversalSpec

  /** No page accepted yet in this generation. */
  predicate Blank(s: State) {
    s.items == [] && s.totalSize == 0 && s.nextPageToken.None? && s.loadMoreError.None? && s.more.None?
    && s.tokensSeen == {} && s.sequencesSeen == {} && s.accepted == 0 && s.offered.None?
  }

  /** Full pages so far, and one page size fits between them and the total. */
  predicate PagesFilled(s: State) {
    && 1 <= s.pageSize <= 200 && s.accepted >= 1
    && (s.offered.Some? ==> |s.items| == s.accepted * s.pageSize && |s.items| < s.totalSize)
    && (s.offered.None? ==> |s.items| == s.totalSize && s.totalSize <= s.accepted * s.pageSize)
    && (s.offered.None? && s.accepted > 1 ==> (s.accepted - 1) * s.pageSize < s.totalSize)
  }

  predicate Listing(s: State) {
    && StrictlyDescending(s.items)
    && (forall i | 0 <= i < |s.items| :: s.items[i].sequence >= 1)
    && s.sequencesSeen == Sequences(s.items)
    && |s.items| <= s.totalSize <= MAXIMUM_AUDIT_EVENTS
    && PagesFilled(s)
    && (s.nextPageToken.Some? ==> s.nextPageToken == Normalized(s.offered))
    && (s.loadMoreError.None? ==> s.nextPageToken == Normalized(s.offered))
    && (s.more.Some? ==> s.nextPageToken.Some?)
  }

  predicate Inv(s: State) {
    if s.load == Available then Listing(s) else Blank(s)
  }

  lemma AppendDescending(a: seq<AuditEvent>, b: seq<AuditEvent>)
    requires StrictlyDescending(a) && StrictlyDescending(b)
    requires a != [] && b != [] ==> a[|a| - 1].sequence > b[0].sequence
    ensures StrictlyDescending(a + b)
    ensures Sequences(a + b) == Sequences(a) + Sequences(b)
  {
    var c := a + b;
    forall i, j | 0 <= i < j < |c| ensures c[i].sequence > c[j].sequence {
      if i < |a| <= j {
        assert c[i].sequence >= a[|a| - 1].sequence > b[0].sequence >= b[j - |a|].sequence;
      }
    }
    forall n | n in Sequences(a) + Sequences(b) ensures n in Sequences(c) {
      if n in Sequences(a) {
        var i :| 0 <= i < |a| && a[i].sequence == n;
        assert c[i].sequence == n;
      } else {
        var i :| 0 <= i < |b| && b[i].sequence == n;
        assert c[|a| + i].sequence == n;
      }
    }
  }

  lemma InitialKeepsInv(s: State, reply: Reply)
    requires Inv(s) && s.load == Loading
    ensures Inv(AcceptInitial(s, reply))
  {
    if LoadPage(s.kind, s.pageSize, None, reply).Ok? {
      LoadedPage(s.kind, s.pageSize, None, reply);
      var page := LoadPage(s.kind, s.pageSize, None, reply).value;
      assert [] + page.items == page.items;
      assert {} + Sequences(page.items) == Sequences(page.items);
    }
  }

  /** Every accepted continuation brings the list strictly closer to its total. */
  lemma ContinuationGrows(s: State, reply: Reply)
    requires Inv(s) && s.more.Some? && Continuation(s, reply).Ok?
    ensures |AcceptMore(s, reply).items| > |s.items|
    ensures AcceptMore(s, reply).totalSize == s.totalSize
  {
  }

  lemma AppendFillsPages(s: State, page: AuditPage)
    requires PagesFilled(s) && s.offered.Some? && Continues(s, page)
    requires |page.items| <= s.pageSize && (page.nextPageToken.Some? ==> |page.items| == s.pageSize)
    ensures PagesFilled(Append(s, page))
  {
  }

  lemma MoreKeepsInv(s: State, reply: Reply)
    requires Inv(s) && s.more.Some?
    ensures Inv(AcceptMore(s, reply))
  {
    hide PagesFilled, LoadPage, StrictlyDescending;
    if Continuation(s, reply).Ok? {
      LoadedPage(s.kind, s.pageSize, s.nextPageToken, reply);
      var page := Continuation(s, reply).value;
      AppendFillsPages(s.(more := None), page) by {
        assert PagesFilled(s.(more := None)) by {
          PagesFilledIgnoresMore(s);
        }
      }
      AppendDescending(s.items, page.items);
    } else {
      PagesFilledIgnoresMore(s);
    }
  }

  lemma PagesFilledIgnoresMore(s: State)
    requires PagesFilled(s)
    ensures forall more, failure, token ::
      PagesFilled(s.(more := more, loadMoreError := failure, nextPageToken := token))
  {
  }

  lemma StepKeepsInv(s: State, e: Event)
    requires Inv(s)
    ensures Inv(Next(s, e))
  {
    match e {
      case InitialAnswers(controller, reply) =>
        if controller == s.generation && s.load == Loading {
          InitialKeepsInv(s, reply);
        }
      case MoreAnswers(controller, reply) =>
        if s.more == Some(controller) {
          MoreKeepsInv(s, reply);
        }
      case _ =>
    }
  }

  lemma {:induction false} ReachableInv(s: State, events: seq<Event>)
    requires Inv(s)
    ensures Inv(Run(s, events))
    decreases |events|
  {
    hide Next;
    if events != [] {
      StepKeepsInv(s, events[0]);
      ReachableInv(Next(s, events[0]), events[1..]);
    }
  }

  /** The list at any moment of any run. */
  lemma AccumulatedList(kind: Kind, pageSize: int, events: seq<Event>)
    ensures var s := Run(Initial(kind, pageSize), events);
      && Inv(s)
      && StrictlyDescending(s.items)
      && |s.items| <= s.totalSize
      && s.sequencesSeen == Sequences(s.items)
      && (s.nextPageToken.Some? ==> |s.items| < s.totalSize && |s.items| == s.accepted * s.pageSize)
  {
    ReachableInv(Initial(kind, pageSize), events);
  }

  /** The view shows a finished list: no cursor left and no error. */
  predicate Finished(s: State) {
    s.load == Available && s.nextPageToken.None? && s.loadMoreError.None?
  }

  /**
    * A finished list has exactly its total if and only if its last page carried no token. The
    * other case is a token of nothing but white space, which passes the canonical check only
    * behind a byte-order mark and is then trimmed away.
    */
  lemma FinishedIsComplete(kind: Kind, pageSize: int, events: seq<Event>)
    requires Finished(Run(Initial(kind, pageSize), events))
    ensures var s := Run(Initial(kind, pageSize), events);
      && (|s.items| == s.totalSize <==> s.offered.None?)
      && (s.offered.Some? ==> AllSpace(s.offered.value))
  {
    ReachableInv(Initial(kind, pageSize), events);
    var s := Run(Initial(kind, pageSize), events);
    if s.offered.Some? {
      TrimEmpty(s.offered.value);
    }
  }

  /** No reply of the run carries a token that trimming would lose. */
  predicate TokensVisible(events: seq<Event>) {
    forall i | 0 <= i < |events| :: TokenVisible(events[i])
  }

  predicate ReplyTokenVisible(reply: Reply) {
    reply.Listed? && reply.meta.Some? && reply.meta.value.nextPageToken.Some? ==>
      reply.meta.value.nextPageToken.value == [] || !AllSpace(reply.meta.value.nextPageToken.value)
  }

  predicate TokenVisible(e: Event) {
    && (e.InitialAnswers? ==> ReplyTokenVisible(e.reply))
    && (e.MoreAnswers? ==> ReplyTokenVisible(e.reply))
  }

  predicate OfferVisible(s: State) {
    s.offered.Some? ==> !AllSpace(s.offered.value)
  }

  lemma StepKeepsOfferVisible(s: State, e: Event)
    requires OfferVisible(s) && TokenVisible(e)
    ensures OfferVisible(Next(s, e))
  {
  }

  lemma {:induction false} ReachableOfferVisible(s: State, events: seq<Event>)
    requires OfferVisible(s) && TokensVisible(events)
    ensures OfferVisible(Run(s, events))
    decreases |events|
  {
    hide Next, OfferVisible;
    if events != [] {
      StepKeepsOfferVisible(s, events[0]);
      ReachableOfferVisible(Next(s, events[0]), events[1..]);
    }
  }

  /** Against a server without such tokens, a list without cursor and error is the whole list. */
  lemma VisibleTokensFinishComplete(kind: Kind, pageSize: int, events: seq<Event>)
    requires TokensVisible(events)
    requires Finished(Run(Initial(kind, pageSize), events))
    ensures |Run(Initial(kind, pageSize), events).items| == Run(Initial(kind, pageSize), events).totalSize
  {
    ReachableOfferVisible(Initial(kind, pageSize), events);
    FinishedIsComplete(kind, pageSize, events);
  }

  function LostCursorReply(): Reply {
    Listed([RawEvent(AuditEvent(2, 0), None, 0, true)],
           Some(PageMeta(Some(2), true, Some([BYTE_ORDER_MARK]))))
  }

  /** With one, the view presents one of two events as the finished list. */
  lemma LostCursorLeavesListShort()
    ensures var s := Run(Initial(SearchAttempt, 1), [InitialAnswers(0, LostCursorReply())]);
      Finished(s) && |s.items| == 1 && s.totalSize == 2
  {
    ByteOrderMarkIsLost();
    var s := Initial(SearchAttempt, 1);
    var e := InitialAnswers(0, LostCursorReply());
    assert Run(s, [e]) == Run(Next(s, e), []);
  }

  // ---------- Complete lists ----------

  predicate Complete(s: State) {
    s.load == Available && |s.items| == s.totalSize
  }

  lemma DropLast(items: seq<AuditEvent>)
    requires StrictlyDescending(items) && items != []
    ensures var n := |items| - 1;
      StrictlyDescending(items[..n]) && Sequences(items[..n]) == Sequences(items) - {items[n].sequence}
  {
  }

  /** As many distinct sequences as a set they all come from are that set. */
  lemma {:induction false} DescendingCount(items: seq<AuditEvent>)
    requires StrictlyDescending(items)
    ensures |Sequences(items)| == |items|
  {
    if items != [] {
      var n := |items| - 1;
      DescendingCount(items[..n]);
      DropLast(items);
      assert items[n].sequence in Sequences(items);
    }
  }

  lemma SubsetOfSameSize(a: set<int>, b: set<int>)
    requires a <= b && |a| == |b|
    ensures a == b
  {
    var rest := b - a;
    assert b == a + rest;
    assert |b| == |a| + |rest|;
  }

  /** A complete traversal of a set of that size is the whole set, each sequence once. */
  lemma CompleteIsTheSet(s: State, all: set<int>)
    requires Inv(s) && Complete(s)
    requires Sequences(s.items) <= all && |all| == s.totalSize
    ensures Sequences(s.items) == all
  {
    DescendingCount(s.items);
    SubsetOfSameSize(Sequences(s.items), all);
  }

  /** And there is only one descending list of a set: two complete traversals agree everywhere. */
  lemma {:induction false} DescendingUnique(a: seq<AuditEvent>, b: seq<AuditEvent>)
    requires StrictlyDescending(a) && StrictlyDescending(b)
    requires Sequences(a) == Sequences(b)
    ensures |a| == |b|
    ensures forall i | 0 <= i < |a| :: a[i].sequence == b[i].sequence
  {
    DescendingCount(a);
    DescendingCount(b);
    if a != [] {
      var n := |a| - 1;
      assert a[n].sequence in Sequences(b) && b[n].sequence in Sequences(a);
      var i :| 0 <= i <= n && b[i].sequence == a[n].sequence;
      var j :| 0 <= j <= n && a[j].sequence == b[n].sequence;
      assert a[n].sequence == b[n].sequence;
      var x, y := a[..n], b[..n];
      DropLast(a);
      DropLast(b);
      DescendingUnique(x, y);
    }
  }

  /** The number of pages a total takes; an empty list still takes one. */
  function PagesFor(total: nat, pageSize: nat): nat
    requires pageSize > 0
  {
    if total == 0 then 1 else (total + pageSize - 1) / pageSize
  }

  /** A complete traversal took exactly that many accepted pages. */
  lemma CompleteTakesExactlyItsPages(s: State)
    requires Inv(s) && Complete(s)
    ensures s.accepted == PagesFor(s.totalSize, s.pageSize)
  {
    var p, k := s.pageSize, s.accepted;
    assert (k - 1) * p == k * p - p;
    if s.totalSize == 0 {
      assert k > 1 ==> (k - 1) * p >= 0;
    } else {
      DivModUnique(s.totalSize + p - 1, p, k, s.totalSize + p - 1 - k * p);
    }
  }

  /** Sequences start at one, so a complete list has room below each of its entries. */
  lemma {:induction false} SequenceFloor(items: seq<AuditEvent>, i: nat)
    requires StrictlyDescending(items) && i < |items|
    requires forall k | 0 <= k < |items| :: items[k].sequence >= 1
    ensures items[i].sequence >= |items| - i
    decreases |items| - i
  {
    if i + 1 < |items| {
      SequenceFloor(items, i + 1);
    }
  }

  /**
    * The whole-run guarantee: against a server whose items all come from a set of the size it
    * announced, a finished list is that set, newest first, in exactly as many pages as it takes,
    * and each entry has room below it for the ones that follow.
    */
  lemma FinishedTraversal(kind: Kind, pageSize: int, events: seq<Event>, all: set<int>)
    requires TokensVisible(events)
    requires Finished(Run(Initial(kind, pageSize), events))
    requires Sequences(Run(Initial(kind, pageSize), events).items) <= all
    requires |all| == Run(Initial(kind, pageSize), events).totalSize
    ensures var s := Run(Initial(kind, pageSize), events);
      && Sequences(s.items) == all && StrictlyDescending(s.items)
      && s.pageSize > 0 && s.accepted == PagesFor(|all|, s.pageSize)
      && forall i | 0 <= i < |s.items| :: s.items[i].sequence >= |all| - i
  {
    hide Run, Sequences, PagesFor;
    ReachableInv(Initial(kind, pageSize), events);
    VisibleTokensFinishComplete(kind, pageSize, events);
    var s := Run(Initial(kind, pageSize), events);
    CompleteIsTheSet(s, all);
    CompleteTakesExactlyItsPages(s);
    forall i: nat | i < |s.items| ensures s.items[i].sequence >= |all| - i {
      SequenceFloor(s.items, i);
    }
  }

  // ---------- Superseded requests ----------

  predicate ControllersFrom(s: State, n: nat) {
    s.generation >= n && (s.more.Some? ==> s.more.value >= n) && s.nextController >= n
  }

  lemma {:induction false} ControllersStayFrom(s: State, events: seq<Event>, n: nat)
    requires ControllersFrom(s, n)
    ensures ControllersFrom(Run(s, events), n)
    decreases |events|
  {
    if events != [] {
      ControllersStayFrom(Next(s, events[0]), events[1..], n);
    }
  }

  /** An answer to a request made before a reload changes nothing, however late it comes. */
  lemma StaleAnswersAreDropped(s: State, controller: nat, before: seq<Event>, pageSize: int,
                               after: seq<Event>, reply: Reply)
    requires controller < s.nextController
    ensures var t := Run(Next(Run(s, before), Reload(pageSize)), after);
      Next(t, MoreAnswers(controller, reply)) == t && Next(t, InitialAnswers(controller, reply)) == t
  {
    ControllersGrow(s, before);
    var n := Run(s, before).nextController;
    ControllersStayFrom(Next(Run(s, before), Reload(pageSize)), after, n);
  }

  lemma {:induction false} ControllersGrow(s: State, events: seq<Event>)
    ensures Run(s, events).nextController >= s.nextController
    decreases |events|
  {
    if events != [] {
      ControllersGrow(Next(s, events[0]), events[1..]);
    }
  }
}
