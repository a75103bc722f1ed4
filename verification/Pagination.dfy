/** Two independently paginated connections read by one query per page (noodles.py:3506-3555). */
module Pagination {
  import opened Wrappers

  const PAGE_LIMIT := 50

  /** One connection's part of a response. */
  datatype Page<T> = Page(nodes: seq<T>, hasNext: bool, endCursor: Option<nat>)

  function Concat<T>(pages: seq<seq<T>>): seq<T> {
    if pages == [] then [] else Concat(pages[..|pages| - 1]) + pages[|pages| - 1]
  }

  /** The pages' nodes one after another: joining two lists of pages joins what they hold. */
  lemma {:induction false} ConcatExact<T>(a: seq<seq<T>>, b: seq<seq<T>>)
    ensures Concat(a + b) == Concat(a) + Concat(b)
    ensures |a| == 1 ==> Concat(a) == a[0]
  {
    if b == [] {
      assert a + b == a;
    } else {
      var n := |b| - 1;
      ConcatExact(a, b[..n]);
      assert (a + b)[..|a + b| - 1] == a + b[..n];
    }
  }

  /** The provider's page for a cursor. The cursor of page k leads to page k + 1; past the last page the
      provider serves an old page again. */
  function Serve<T>(pages: seq<seq<T>>, cursor: Option<nat>, lastCursor: Option<nat>, stale: nat): Page<T>
    requires pages != []
  {
    var k := if cursor.None? then 0 else if cursor.value + 1 < |pages| then cursor.value + 1 else stale % |pages|;
    Page(pages[k], k + 1 < |pages|, if k + 1 < |pages| then Some(k) else lastCursor)
  }

  /** What the provider serves for the cursor of the page before: the next page, whether more follow, and its own
      cursor unless it is the last. */
  lemma ServeExact<T>(pages: seq<seq<T>>, k: nat, lastCursor: Option<nat>, stale: nat)
    requires k < |pages|
    ensures Serve(pages, if k == 0 then None else Some(k - 1), lastCursor, stale) ==
            if k + 1 == |pages| then Page(pages[k], false, lastCursor) else Page(pages[k], true, Some(k))
  {
  }

  function Max(m: nat, n: nat): nat {
    if m >= n then m else n
  }

  function Min(m: nat, n: nat): nat {
    if m <= n then m else n
  }

  /** The rounds answered without error are enough to finish both connections inside the page limit. */
  ghost predicate CanFinish(rounds: nat, fails: nat -> bool) {
    rounds <= 50 && forall n: nat :: n < rounds ==> !fails(n)
  }

  /** One connection after `round` pages were asked for: each page consumed once, in order. */
  ghost predicate Reading<T>(pages: seq<seq<T>>, round: nat, taken: seq<T>, done: bool, cursor: Option<nat>) {
    && (done <==> round >= |pages|)
    && taken == Concat(pages[..Min(round, |pages|)])
    && (!done ==> cursor == if round == 0 then None else Some(round - 1))
  }

  lemma ReadNext<T>(
    pages: seq<seq<T>>, round: nat, taken: seq<T>, cursor: Option<nat>, lastCursor: Option<nat>, stale: nat)
    requires pages != [] && Reading(pages, round, taken, false, cursor)
    ensures var page := Serve(pages, cursor, lastCursor, stale);
            Reading(pages, round + 1, taken + page.nodes, !page.hasNext, page.endCursor)
  {
    assert pages[..round + 1][..round] == pages[..round];
  }

  /** An exhausted connection is left alone however often its old pages come back. */
  lemma StaysRead<T>(pages: seq<seq<T>>, round: nat, taken: seq<T>, cursor: Option<nat>)
    requires Reading(pages, round, taken, true, cursor)
    ensures Reading(pages, round + 1, taken, true, cursor)
  {
  }

  /** backlog_graphql_snapshot: each connection's pages, once each and in order, whichever ends first. */
  method Snapshot<T, U>(
    issuePages: seq<seq<T>>, pullPages: seq<seq<U>>, lastIssue: Option<nat>, lastPull: Option<nat>,
    stale: nat -> nat, fails: nat -> bool) returns (r: Option<(seq<T>, seq<U>)>)
    requires issuePages != [] && pullPages != []
    ensures r.Some? <==> CanFinish(Max(|issuePages|, |pullPages|), fails)
    ensures r.Some? ==> r.value == (Concat(issuePages), Concat(pullPages))
  {
    var issues: seq<T>, pulls: seq<U> := [], [];
    var issueCursor: Option<nat>, pullCursor: Option<nat> := None, None;
    var issueDone, pullDone := false, false;
    for round := 0 to PAGE_LIMIT
      invariant !issueDone || !pullDone
      invariant Reading(issuePages, round, issues, issueDone, issueCursor)
      invariant Reading(pullPages, round, pulls, pullDone, pullCursor)
      invariant forall n: nat :: n < round ==> !fails(n)
    {
      if fails(round) {
        assert !CanFinish(Max(|issuePages|, |pullPages|), fails);
        return None;
      }
      var issuePage := Serve(issuePages, issueCursor, lastIssue, stale(round));
      var pullPage := Serve(pullPages, pullCursor, lastPull, stale(round));
      if !issueDone {
        ReadNext(issuePages, round, issues, issueCursor, lastIssue, stale(round));
        issues := issues + issuePage.nodes;
        issueDone, issueCursor := !issuePage.hasNext, issuePage.endCursor;
      } else {
        StaysRead(issuePages, round, issues, issueCursor);
      }
      if !pullDone {
        ReadNext(pullPages, round, pulls, pullCursor, lastPull, stale(round));
        pulls := pulls + pullPage.nodes;
        pullDone, pullCursor := !pullPage.hasNext, pullPage.endCursor;
      } else {
        StaysRead(pullPages, round, pulls, pullCursor);
      }
      if issueDone && pullDone {
        assert issuePages[..|issuePages|] == issuePages && pullPages[..|pullPages|] == pullPages;
        return Some((issues, pulls));
      }
    }
    r := None;
  }
}
