/** The hook's mutable state, updated in place and proved against the steps above. */
module AuditTraversal {
  import opened Wrappers
  import opened JsText
  import opened Pagination
  import opened AuditPages
  import Spec = AuditTraversalSpec
  import Runs = AuditTraversalRuns

  class Traversal {
    const kind: Kind
    var pageSize: int
    var load: Spec.LoadState
    var items: seq<AuditEvent>
    var totalSize: int
    var nextPageToken: Option<Text>
    var error: Option<Failure>
    var loadMoreError: Option<Failure>
    var tokensSeen: set<Text>
    var sequencesSeen: set<int>
    var generation: nat
    var more: Option<nat>
    var nextController: nat
    ghost var accepted: nat
    ghost var offered: Option<Text>

    ghost function View(): Spec.State
      reads this
    {
      Spec.State(kind, pageSize, load, items, totalSize, nextPageToken, error, loadMoreError, tokensSeen,
                 sequencesSeen, generation, more, nextController, accepted, offered)
    }

    ghost predicate Valid()
      reads this
    {
      Runs.Inv(View())
    }

    constructor (kind: Kind, pageSize: int)
      ensures View() == Spec.Initial(kind, pageSize) && Valid()
    {
      this.kind, this.pageSize := kind, pageSize;
      load, items, totalSize, nextPageToken := Spec.Loading, [], 0, None;
      error, loadMoreError, tokensSeen, sequencesSeen := None, None, {}, {};
      generation, more, nextController, accepted, offered := 0, None, 1, 0, None;
    }

    /** A reload clears everything and aborts what is in flight. */
    method Reload(newPageSize: int)
      requires Valid()
      modifies this
      ensures View() == Spec.Next(old(View()), Spec.Reload(newPageSize)) && Valid()
    {
      hide Runs.Inv;
      Runs.StepKeepsInv(View(), Spec.Reload(newPageSize));
      pageSize := newPageSize;
      load, items, totalSize, nextPageToken := Spec.Loading, [], 0, None;
      error, loadMoreError, tokensSeen, sequencesSeen := None, None, {}, {};
      more := None;
      generation := nextController;
      nextController := nextController + 1;
      accepted, offered := 0, None;
    }

    /** `recordNextPageToken` on the set of this traversal. */
    method RecordToken(token: Option<Text>) returns (r: Result<Option<Text>, ()>)
      modifies `tokensSeen
      ensures r == RecordNextPageToken(old(tokensSeen), token)
      ensures tokensSeen == if r.Ok? then Remember(old(tokensSeen), token) else old(tokensSeen)
    {
      var normalized := Normalized(token);
      if normalized.None? {
        return Ok(None);
      }
      if normalized.value in tokensSeen {
        return Err(());
      }
      tokensSeen := tokensSeen + {normalized.value};
      return Ok(normalized);
    }

    method AddSequences(page: seq<AuditEvent>)
      modifies `sequencesSeen
      ensures sequencesSeen == old(sequencesSeen) + Spec.Sequences(page)
    {
      for i := 0 to |page|
        invariant sequencesSeen == old(sequencesSeen) + Spec.Sequences(page[..i])
      {
        sequencesSeen := sequencesSeen + {page[i].sequence};
        assert page[..i + 1] == page[..i] + [page[i]];
        SequencesSnoc(page[..i], page[i]);
      }
      assert page[..|page|] == page;
    }

    method InitialAnswers(controller: nat, reply: Reply)
      requires Valid()
      modifies this
      ensures View() == Spec.Next(old(View()), Spec.InitialAnswers(controller, reply)) && Valid()
    {
      Runs.StepKeepsInv(View(), Spec.InitialAnswers(controller, reply));
      if controller != generation || load != Spec.Loading {
        return;
      }
      var result := LoadPage(kind, pageSize, None, reply);
      if result.Err? {
        error, load := Some(result.error), Spec.FailedToLoad;
      } else {
        var page := result.value;
        AddSequences(page.items);
        items := page.items;
        totalSize := page.totalSize;
        var token := RecordToken(page.nextPageToken);
        nextPageToken := token.value;
        load := Spec.Available;
        accepted, offered := accepted + 1, page.nextPageToken;
        assert [] + page.items == page.items;
      }
    }

    /** A second call while one is in flight does nothing. */
    method LoadMore() returns (controller: Option<nat>)
      requires Valid()
      modifies this
      ensures View() == Spec.Next(old(View()), Spec.LoadMore) && Valid()
      ensures controller.Some? ==> more == controller
    {
      hide Runs.Inv;
      Runs.StepKeepsInv(View(), Spec.LoadMore);
      if nextPageToken.None? || more.Some? {
        return None;
      }
      controller := Some(nextController);
      nextController := nextController + 1;
      more := controller;
      loadMoreError := None;
    }

    /** The checks of a continuation, one by one, before anything is changed. */
    method CheckContinuation(page: AuditPage) returns (failure: Option<Failure>)
      modifies `tokensSeen
      ensures failure.None? <==>
        (Spec.Continues(old(View()), page) && RecordNextPageToken(old(tokensSeen), page.nextPageToken).Ok?)
      ensures failure.Some? ==>
        failure == Some(if Spec.Continues(old(View()), page) then RepeatedCursor else TypeFailure)
      ensures tokensSeen == if failure.None? then Remember(old(tokensSeen), page.nextPageToken) else old(tokensSeen)
    {
      if page.totalSize != totalSize {
        return Some(TypeFailure);
      }
      if exists i | 0 <= i < |page.items| :: page.items[i].sequence in sequencesSeen {
        return Some(TypeFailure);
      }
      if items != [] && page.items != [] && items[|items| - 1].sequence <= page.items[0].sequence {
        return Some(TypeFailure);
      }
      var combined := |items| + |page.items|;
      if || combined > page.totalSize
         || (page.nextPageToken.None? && combined != page.totalSize)
         || (page.nextPageToken.Some? && combined >= page.totalSize)
      {
        return Some(TypeFailure);
      }
      var token := RecordToken(page.nextPageToken);
      return if token.Err? then Some(RepeatedCursor) else None;
    }

    method MoreAnswers(controller: nat, reply: Reply)
      requires Valid()
      modifies this
      ensures View() == Spec.Next(old(View()), Spec.MoreAnswers(controller, reply)) && Valid()
    {
      hide Runs.Inv, LoadPage, Spec.Sequences;
      Runs.StepKeepsInv(View(), Spec.MoreAnswers(controller, reply));
      if more != Some(controller) {
        return;
      }
      var result := LoadPage(kind, pageSize, nextPageToken, reply);
      if result.Err? {
        FailMore(result.error);
      } else {
        var failure := CheckContinuation(result.value);
        if failure.Some? {
          FailMore(failure.value);
        } else {
          AppendPage(result.value);
        }
      }
      more := None;
    }

    method FailMore(failure: Failure)
      modifies `loadMoreError, `nextPageToken
      ensures loadMoreError == Some(failure)
      ensures nextPageToken == if Spec.StopsTraversal(failure) then None else old(nextPageToken)
    {
      loadMoreError := Some(failure);
      if Spec.StopsTraversal(failure) {
        nextPageToken := None;
      }
    }

    method AppendPage(page: AuditPage)
      modifies `items, `sequencesSeen, `nextPageToken, `accepted, `offered
      ensures items == old(items) + page.items
      ensures sequencesSeen == old(sequencesSeen) + Spec.Sequences(page.items)
      ensures nextPageToken == Normalized(page.nextPageToken)
      ensures accepted == old(accepted) + 1 && offered == page.nextPageToken
    {
      AddSequences(page.items);
      items := items + page.items;
      nextPageToken := Normalized(page.nextPageToken);
      accepted, offered := accepted + 1, page.nextPageToken;
    }
  }

  lemma SequencesSnoc(items: seq<AuditEvent>, e: AuditEvent)
    ensures Spec.Sequences(items + [e]) == Spec.Sequences(items) + {e.sequence}
  {
    var all := items + [e];
    assert all[|items|] == e;
    forall n | n in Spec.Sequences(items) ensures n in Spec.Sequences(all) {
      var i :| 0 <= i < |items| && items[i].sequence == n;
      assert all[i].sequence == n;
    }
  }
}
