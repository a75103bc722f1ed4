/** Invariant I3 over one admission cycle and over runs of cycles with unchanged issue bodies. */
module AdmissionTheorems {
  import opened Wrappers
  import Boundary
  import Ordering
  import Schedule
  import ScheduleTheorems
  import opened Admission

  /** What every order needs, new claim or adoption, up to the provider call that decides it. */
  ghost predicate Admissible(r: Reading, candidate: seq<string>, reserved: seq<Reservation>) {
    && r.readable && r.schedulable && r.admitted && r.boundary == Some(candidate)
    && ClearOfAll(candidate, reserved) && !r.openPr && r.identified && r.handedOff
  }

  /** A claim is won exactly by a winner that still is one on the re-read snapshot, is admitted, declares a
      boundary clear of every reservation, has no open PR and gets the ref. */
  lemma ClaimedExact(
    order: Order, winners: set<string>, orphans: set<string>, reserved: seq<Reservation>, candidate: seq<string>)
    ensures var r, subject := order.reading, order.lane.subject;
            Judge(order, winners, orphans, reserved) == Outcome(Claimed(candidate)) <==>
              subject in winners && subject !in orphans && r.freshWinner && Admissible(r, candidate, reserved)
                && r.claim == Won
  {
    AdmissionConflictExact(candidate, reserved);
  }

  /** An orphan is adopted exactly when the same holds beside its own reservation and its identity has not
      drifted; it needs no ref and need not be a winner. */
  lemma AdoptedExact(
    order: Order, winners: set<string>, orphans: set<string>, reserved: seq<Reservation>, candidate: seq<string>)
    ensures var r, subject := order.reading, order.lane.subject;
            Judge(order, winners, orphans, reserved) == Outcome(Adopted(candidate)) <==>
              subject in orphans && Admissible(r, candidate, Others(reserved, subject)) && r.adoption == Adoptable
  {
    AdmissionConflictExact(candidate, Others(reserved, order.lane.subject));
  }

  /** Each claim won in a cycle is disjoint from every reservation its repository held at the start, all
      of which were declared, and from every other claim the cycle won there. */
  lemma WonLanesAreDisjoint(issues: seq<Schedule.Issue>, won: seq<WonClaim>)
    requires WonClear(issues, won)
    ensures forall a, r :: 0 <= a < |won| && r in ReservedOf(issues, won[a].repository) ==> Clear(won[a].boundary, r)
    ensures forall a, b :: 0 <= a < b < |won| && won[a].repository == won[b].repository
              ==> Boundary.Disjoint(won[a].boundary, won[b].boundary)
  {
    forall a, r | 0 <= a < |won| && r in ReservedOf(issues, won[a].repository) ensures Clear(won[a].boundary, r) {
      var start := ReservedOf(issues, won[a].repository);
      var table := start + WonIn(won[..a], won[a].repository);
      var i :| 0 <= i < |start| && start[i] == r;
      assert table[i] == r;
    }
    forall a, b | 0 <= a < b < |won| && won[a].repository == won[b].repository
      ensures Boundary.Disjoint(won[a].boundary, won[b].boundary)
    {
      var start := ReservedOf(issues, won[b].repository);
      var i := WonIndex(won[..b], a);
      var table := start + WonIn(won[..b], won[b].repository);
      assert table[|start| + i] == Reservation(won[a].subject, Some(won[a].boundary));
    }
  }

  lemma {:induction false} WonIndex(won: seq<WonClaim>, a: nat) returns (i: nat)
    requires a < |won|
    ensures i < |WonIn(won, won[a].repository)|
    ensures WonIn(won, won[a].repository)[i] == Reservation(won[a].subject, Some(won[a].boundary))
  {
    if a == |won| - 1 {
      i := |WonIn(won[..a], won[a].repository)|;
    } else {
      i := WonIndex(won[..|won| - 1], a);
    }
  }

  /** Nothing is newly claimed in a repository where a live claim's boundary is undeclared. */
  lemma {:induction false} UndeclaredBlocksRepository(
    issues: seq<Schedule.Issue>, won: seq<WonClaim>, r: Reservation, repo: string)
    requires WonClear(issues, won) && r in ReservedOf(issues, repo) && r.boundary.None?
    ensures WonIn(won, repo) == []
  {
    WonLanesAreDisjoint(issues, won);
    if won == [] {
    } else {
      var before := won[..|won| - 1];
      assert WonClear(issues, before) by {
        assert forall a :: 0 <= a < |before| ==> before[a] == won[a] && before[..a] == won[..a];
      }
      UndeclaredBlocksRepository(issues, before, r, repo);
    }
  }

  lemma DisjointSnoc(reserved: seq<Reservation>, boundary: seq<string>, subject: string)
    requires PairwiseDisjoint(reserved) && ClearOfAll(boundary, reserved)
    ensures PairwiseDisjoint(reserved + [Reservation(subject, Some(boundary))])
  {
    var all := reserved + [Reservation(subject, Some(boundary))];
    forall i, j | 0 <= i < j < |all| ensures Apart(all[i], all[j]) {
      assert j < |reserved| ==> Apart(reserved[i], reserved[j]);
      assert Clear(boundary, reserved[i]);
    }
  }

  /** I3 at the start of a cycle is I3 of what the next cycle reads, so no widening is reported there. */
  lemma {:induction false} CycleKeepsI3(issues: seq<Schedule.Issue>, won: seq<WonClaim>, repo: string)
    requires WonClear(issues, won) && PairwiseDisjoint(ReservedOf(issues, repo))
    ensures PairwiseDisjoint(ReservedOf(issues, repo) + WonIn(won, repo))
    ensures Widenings(ReservedOf(issues, repo) + WonIn(won, repo)) == []
  {
    var start := ReservedOf(issues, repo);
    if won == [] {
      assert start + WonIn(won, repo) == start;
    } else {
      var before, last := won[..|won| - 1], won[|won| - 1];
      assert WonClear(issues, before) by {
        assert forall a :: 0 <= a < |before| ==> before[a] == won[a] && before[..a] == won[..a];
      }
      CycleKeepsI3(issues, before, repo);
      if last.repository == repo {
        DisjointSnoc(start + WonIn(before, repo), last.boundary, last.subject);
        assert start + WonIn(won, repo) ==
          (start + WonIn(before, repo)) + [Reservation(last.subject, Some(last.boundary))];
      } else {
        assert start + WonIn(won, repo) == start + WonIn(before, repo);
      }
    }
    NoWideningIffDisjoint(start + WonIn(won, repo));
  }

  datatype Cycle = Cycle(issues: seq<Schedule.Issue>, won: seq<WonClaim>)

  /** What a repository's reservations can become between cycles when no body is edited: claims are
      released, never widened, and each subject holds one claim. */
  ghost predicate DrawnFrom(next: seq<Reservation>, held: seq<Reservation>) {
    && (forall i :: 0 <= i < |next| ==> next[i] in held)
    && forall i, j :: 0 <= i < j < |next| ==> next[i].subject != next[j].subject
  }

  lemma DrawnStaysDisjoint(next: seq<Reservation>, held: seq<Reservation>)
    requires PairwiseDisjoint(held) && DrawnFrom(next, held)
    ensures PairwiseDisjoint(next)
  {
    forall i, j | 0 <= i < j < |next| ensures Apart(next[i], next[j]) {
      assert next[i] in held && next[j] in held;
      var p :| 0 <= p < |held| && held[p] == next[i];
      var q :| 0 <= q < |held| && held[q] == next[j];
      assert p != q;
      assert Apart(held[if p < q then p else q], held[if p < q then q else p]);
    }
  }

  ghost predicate IsRun(cycles: seq<Cycle>, repo: string) {
    && (forall k :: 0 <= k < |cycles| ==> WonClear(cycles[k].issues, cycles[k].won))
    && forall k :: 0 < k < |cycles| ==> Continues(cycles, k, repo)
  }

  ghost predicate Continues(cycles: seq<Cycle>, k: int, repo: string)
    requires 0 < k < |cycles|
  {
    DrawnFrom(ReservedOf(cycles[k].issues, repo),
              ReservedOf(cycles[k - 1].issues, repo) + WonIn(cycles[k - 1].won, repo))
  }

  /** Over any run of cycles, however claims are released between them, the live claims of a repository
      stay pairwise disjoint and no cycle reports a widening. */
  lemma {:induction false} RunKeepsI3(cycles: seq<Cycle>, repo: string, k: nat)
    requires IsRun(cycles, repo) && k < |cycles|
    requires PairwiseDisjoint(ReservedOf(cycles[0].issues, repo))
    ensures PairwiseDisjoint(ReservedOf(cycles[k].issues, repo))
    ensures Widenings(ReservedOf(cycles[k].issues, repo)) == []
  {
    if k == 0 {
    } else {
      RunKeepsI3(cycles, repo, k - 1);
      CycleKeepsI3(cycles[k - 1].issues, cycles[k - 1].won, repo);
      assert Continues(cycles, k, repo);
      DrawnStaysDisjoint(ReservedOf(cycles[k].issues, repo),
                         ReservedOf(cycles[k - 1].issues, repo) + WonIn(cycles[k - 1].won, repo));
    }
    NoWideningIffDisjoint(ReservedOf(cycles[k].issues, repo));
  }

  // ----- the recheck inside the cycle

  function SubjectsOf(won: seq<WonClaim>): (r: seq<string>)
    ensures |r| == |won|
  {
    seq(|won|, a requires 0 <= a < |won| => won[a].subject)
  }

  /** One of the first n orders is for this subject, a winner. */
  ghost predicate Ordered(orders: seq<Order>, winners: set<string>, n: nat, subject: string) {
    subject in winners && exists m :: 0 <= m < n && m < |orders| && orders[m].lane.subject == subject
  }

  lemma WonBySnoc(orders: seq<Order>, outcomes: seq<Outcome>, n: nat)
    requires 0 < n <= |outcomes| <= |orders|
    ensures SubjectsOf(WonBy(orders[..n], outcomes[..n])) ==
              SubjectsOf(WonBy(orders[..n - 1], outcomes[..n - 1]))
              + if outcomes[n - 1].Claimed? then [orders[n - 1].lane.subject] else []
  {
    assert orders[..n][..n - 1] == orders[..n - 1] && outcomes[..n][..n - 1] == outcomes[..n - 1];
  }

  /** Everything won by the first n orders is one of their subjects, and a winner. */
  lemma {:induction false} WonByOrders(
    issues: seq<Schedule.Issue>, orders: seq<Order>, outcomes: seq<Outcome>, winners: set<string>,
    orphans: set<string>, n: nat)
    requires n <= |outcomes| <= |orders| && Judged(issues, orders, outcomes, winners, orphans)
    ensures forall s :: s in SubjectsOf(WonBy(orders[..n], outcomes[..n])) ==> Ordered(orders, winners, n, s)
  {
    if n == 0 {
    } else {
      var k := n - 1;
      WonByOrders(issues, orders, outcomes, winners, orphans, k);
      WonBySnoc(orders, outcomes, n);
      if outcomes[k].Claimed? {
        var table := TableAt(issues, orders, outcomes, k);
        assert Judge(orders[k], winners, orphans, table) == Outcome(outcomes[k]);
        ClaimedIsWinner(orders[k], winners, orphans, table, outcomes[k]);
        assert Ordered(orders, winners, n, orders[k].lane.subject);
      }
      forall s | Ordered(orders, winners, k, s) ensures Ordered(orders, winners, n, s) {}
    }
  }

  lemma ClaimedIsWinner(
    order: Order, winners: set<string>, orphans: set<string>, reserved: seq<Reservation>, o: Outcome)
    requires Judge(order, winners, orphans, reserved) == Outcome(o) && o.Claimed?
    ensures order.lane.subject in winners
  {
    ClaimedExact(order, winners, orphans, reserved, o.boundary);
  }

  lemma FreshIsKept(order: Order, winners: set<string>, orphans: set<string>, reserved: seq<Reservation>, o: Outcome)
    requires Judge(order, winners, orphans, reserved) == Outcome(o) && order.reading.freshWinner
    ensures o != FrontierChanged
  {
  }

  /** No order appears twice. */
  ghost predicate DistinctOrders(orders: seq<Order>) {
    forall m, n :: 0 <= m < n < |orders| ==> orders[m].lane.subject != orders[n].lane.subject
  }

  /** Order n was rechecked against the decision on a re-read snapshot that agrees, on the repository of its
      issue i, with the snapshot of the cycle's start carrying the claims the cycle has won so far. */
  ghost predicate Rechecked(issues: seq<Schedule.Issue>, orders: seq<Order>, outcomes: seq<Outcome>, n: nat, i: nat,
                            reread: seq<Schedule.Issue>, recheck: Schedule.Decision)
    requires n < |outcomes| <= |orders| && i < |issues|
  {
    && Schedule.IsDecision(reread, recheck)
    && ScheduleTheorems.SameSnapshot(
         ScheduleTheorems.Marked(issues, SubjectsOf(WonBy(orders[..n], outcomes[..n]))), reread, {issues[i].repository})
    && orders[n].reading.freshWinner == (orders[n].lane.subject in recheck.winners)
  }

  lemma WinnerIsFresh(
    issues: seq<Schedule.Issue>, decision: Schedule.Decision, orders: seq<Order>, outcomes: seq<Outcome>,
    n: nat, i: nat, reread: seq<Schedule.Issue>, recheck: Schedule.Decision)
    requires ScheduleTheorems.WellNumbered(issues) && ScheduleTheorems.Identified(issues)
    requires ScheduleTheorems.MalformedIsUnschedulable(issues) && Schedule.IsDecision(issues, decision)
    requires DistinctOrders(orders) && n < |outcomes| <= |orders|
    requires i < |issues| && issues[i].subject == orders[n].lane.subject && issues[i].subject in decision.winners
    requires forall s :: s in SubjectsOf(WonBy(orders[..n], outcomes[..n])) ==>
              Ordered(orders, Ordering.Elements(decision.winners), n, s)
    requires Rechecked(issues, orders, outcomes, n, i, reread, recheck)
    ensures orders[n].reading.freshWinner
  {
    var subjects := SubjectsOf(WonBy(orders[..n], outcomes[..n]));
    forall s | s in subjects ensures s in decision.winners && s != issues[i].subject {
      assert Ordered(orders, Ordering.Elements(decision.winners), n, s);
    }
    ScheduleTheorems.ClaimsKeepNamedWinner(issues, decision, subjects, i, reread, recheck);
  }

  /** The cycle's own claims never cost a later winner its order: no winner leaves with FrontierChanged. */
  lemma NoWinnerIsDropped(
    issues: seq<Schedule.Issue>, decision: Schedule.Decision, orders: seq<Order>, outcomes: seq<Outcome>,
    orphans: set<string>,
    n: nat, i: nat, reread: seq<Schedule.Issue>, recheck: Schedule.Decision)
    requires ScheduleTheorems.WellNumbered(issues) && ScheduleTheorems.Identified(issues)
    requires ScheduleTheorems.MalformedIsUnschedulable(issues) && Schedule.IsDecision(issues, decision)
    requires DistinctOrders(orders) && n < |outcomes| <= |orders|
    requires Judged(issues, orders, outcomes, Ordering.Elements(decision.winners), orphans)
    requires i < |issues| && issues[i].subject == orders[n].lane.subject && issues[i].subject in decision.winners
    requires Rechecked(issues, orders, outcomes, n, i, reread, recheck)
    ensures orders[n].reading.freshWinner && outcomes[n] != FrontierChanged
  {
    var winners := Ordering.Elements(decision.winners);
    WonByOrders(issues, orders, outcomes, winners, orphans, n);
    WinnerIsFresh(issues, decision, orders, outcomes, n, i, reread, recheck);
    var table := TableAt(issues, orders, outcomes, n);
    assert Judge(orders[n], winners, orphans, table) == Outcome(outcomes[n]);
    FreshIsKept(orders[n], winners, orphans, table, outcomes[n]);
  }
}
