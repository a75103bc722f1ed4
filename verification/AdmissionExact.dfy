/** What the admission cycle reports, reserves, wins and publishes, said of the readings alone
    (noodles.py:5056-5102, noodles.py:5191-5350). */
module AdmissionExact {
  import opened Wrappers
  import opened Ordering
  import opened Text
  import Boundary
  import Schedule
  import opened Admission

  // ----- reservations

  function Reserved(issues: seq<Schedule.Issue>, repo: string, k: nat): Option<Reservation> {
    if k < |issues| && issues[k].claimed && issues[k].repository == repo
    then Some(Reservation(issues[k].subject, issues[k].boundary)) else None
  }

  /** The reservations read at the start: the claimed issues of the repository, in snapshot order. */
  lemma {:induction false} ReservedExact(issues: seq<Schedule.Issue>, repo: string)
    ensures Picks(|issues|, (k: nat) => Reserved(issues, repo, k), ReservedOf(issues, repo))
  {
    var pick := (k: nat) => Reserved(issues, repo, k);
    if issues == [] {
      PicksNothing(pick);
    } else {
      var n := |issues| - 1;
      ReservedExact(issues[..n], repo);
      PicksNext(n, (k: nat) => Reserved(issues[..n], repo, k), pick, ReservedOf(issues[..n], repo));
    }
  }

  function ReservedBy(won: seq<WonClaim>, repo: string, k: nat): Option<Reservation> {
    if k < |won| && won[k].repository == repo then Some(Reservation(won[k].subject, Some(won[k].boundary))) else None
  }

  /** Those this cycle adds: its claims in the repository, in order. */
  lemma {:induction false} WonInExact(won: seq<WonClaim>, repo: string)
    ensures Picks(|won|, (k: nat) => ReservedBy(won, repo, k), WonIn(won, repo))
  {
    var pick := (k: nat) => ReservedBy(won, repo, k);
    if won == [] {
      PicksNothing(pick);
    } else {
      var n := |won| - 1;
      WonInExact(won[..n], repo);
      PicksNext(n, (k: nat) => ReservedBy(won[..n], repo, k), pick, WonIn(won[..n], repo));
    }
  }

  function Other(reserved: seq<Reservation>, subject: string, k: nat): Option<Reservation> {
    if k < |reserved| && reserved[k].subject != subject then Some(reserved[k]) else None
  }

  /** An orphan's own reservation set aside. */
  lemma {:induction false} OthersExact(reserved: seq<Reservation>, subject: string)
    ensures Picks(|reserved|, (k: nat) => Other(reserved, subject, k), Others(reserved, subject))
  {
    var pick := (k: nat) => Other(reserved, subject, k);
    if reserved == [] {
      PicksNothing(pick);
    } else {
      var n := |reserved| - 1;
      OthersExact(reserved[..n], subject);
      PicksNext(n, (k: nat) => Other(reserved[..n], subject, k), pick, Others(reserved[..n], subject));
    }
  }

  // ----- what stands in the way

  /** The reservation that blocks: the first that is undeclared or meets the candidate, named with `none` or with
      a path under both declarations. */
  ghost predicate Blocks(candidate: seq<string>, reserved: seq<Reservation>, k: nat, m: Meeting)
    requires k < |reserved|
  {
    && !Clear(candidate, reserved[k]) && (forall i :: 0 <= i < k ==> Clear(candidate, reserved[i]))
    && m.subject == reserved[k].subject
    && (if reserved[k].boundary.None? then m.prefix == "none"
        else Boundary.Conflict(candidate, reserved[k].boundary.value) == Some(m.prefix))
  }

  lemma {:induction false} BlockerExact(candidate: seq<string>, reserved: seq<Reservation>)
    ensures AdmissionConflict(candidate, reserved).Some? ==>
              exists k :: 0 <= k < |reserved|
                          && Blocks(candidate, reserved, k, AdmissionConflict(candidate, reserved).value)
  {
    if reserved != [] {
      if reserved[0].boundary.Some? { Boundary.ConflictExact(candidate, reserved[0].boundary.value); }
      var m := AdmissionConflict(candidate, reserved);
      if !Clear(candidate, reserved[0]) {
        assert Blocks(candidate, reserved, 0, m.value);
      } else if m.Some? {
        BlockerExact(candidate, reserved[1..]);
        var k :| 0 <= k < |reserved[1..]| && Blocks(candidate, reserved[1..], k, m.value);
        assert reserved[1..][k] == reserved[k + 1];
        assert forall i :: 1 <= i < k + 1 ==> reserved[i] == reserved[1..][i - 1];
        assert Blocks(candidate, reserved, k + 1, m.value);
      }
    }
  }

  // ----- one order

  ghost predicate AskedFor(order: Order, winners: set<string>, orphans: set<string>) {
    var s := order.lane.subject;
    s in orphans || (s in winners && order.reading.freshWinner)
  }

  /** Admitted to a lane, with a declared boundary that is clear. */
  ghost predicate Fits(order: Order, table: seq<Reservation>) {
    var r := order.reading;
    && r.readable && r.schedulable && r.admitted && r.boundary.Some? && ClearOfAll(r.boundary.value, table)
  }

  ghost function TableOf(order: Order, orphans: set<string>, reserved: seq<Reservation>): seq<Reservation> {
    if order.lane.subject in orphans then Others(reserved, order.lane.subject) else reserved
  }

  /** Each refusal, exactly when the readings call for it. */
  lemma RefusalsExact(order: Order, winners: set<string>, orphans: set<string>, reserved: seq<Reservation>)
    ensures var s, r, table := order.lane.subject, order.reading, TableOf(order, orphans, reserved);
            var ruling, asked := Judge(order, winners, orphans, reserved), AskedFor(order, winners, orphans);
            && (ruling == Outcome(NotInWinners) <==> s !in winners && s !in orphans)
            && (ruling == Outcome(FrontierChanged) <==> s in winners && s !in orphans && !r.freshWinner)
            && (ruling == Outcome(DependencyChanged) <==> asked && r.readable && !r.schedulable)
            && (ruling == Outcome(ExecutorRefused) <==> asked && r.readable && r.schedulable && !r.admitted)
            && (ruling == Outcome(BoundaryUndeclared) <==>
                  asked && r.readable && r.schedulable && r.admitted && r.boundary.None?)
            && ((ruling.Outcome? && ruling.outcome.BoundaryConflict?) <==>
                  asked && r.readable && r.schedulable && r.admitted && r.boundary.Some? && !Fits(order, table))
            && (ruling.Outcome? && ruling.outcome.BoundaryConflict? ==>
                  AdmissionConflict(r.boundary.value, table) == Some(ruling.outcome.meeting))
            && (ruling == Outcome(OpenPrExists) <==> asked && Fits(order, table) && r.openPr)
  {
    var table := TableOf(order, orphans, reserved);
    if order.reading.boundary.Some? { AdmissionConflictExact(order.reading.boundary.value, table); }
  }

  /** And each of the ends that come after them; anything else raises, and a raise may leave a created ref. */
  lemma EndsExact(order: Order, winners: set<string>, orphans: set<string>, reserved: seq<Reservation>)
    ensures var orphan, r, table := order.lane.subject in orphans, order.reading, TableOf(order, orphans, reserved);
            var ruling := Judge(order, winners, orphans, reserved);
            var fits := AskedFor(order, winners, orphans) && Fits(order, table) && !r.openPr;
            && (ruling == Outcome(AdoptionHeld) <==> fits && orphan && r.adoption == Held)
            && (ruling == Outcome(AlreadyPublished) <==> fits && orphan && r.adoption == Published)
            && (ruling == Outcome(ClaimedElsewhere) <==> fits && !orphan && r.identified && r.claim == Elsewhere)
            && ((ruling.Outcome? && ruling.outcome.Adopted?) <==>
                  fits && orphan && r.adoption == Adoptable && r.identified && r.handedOff)
            && (ruling.Outcome? && ruling.outcome.Adopted? ==> r.boundary == Some(ruling.outcome.boundary))
            && ((ruling.Outcome? && ruling.outcome.Claimed?) <==>
                  fits && !orphan && r.identified && r.claim == Won && r.handedOff)
            && (ruling.Outcome? && ruling.outcome.Claimed? ==> r.boundary == Some(ruling.outcome.boundary))
            && (ruling == Raise(true) <==>
                  && fits && !orphan && r.identified
                  && (r.claim == Unmatched || (r.claim == Won && !r.handedOff)))
  {
    var table := TableOf(order, orphans, reserved);
    if order.reading.boundary.Some? { AdmissionConflictExact(order.reading.boundary.value, table); }
  }

  // ----- the cycle

  function Wins(orders: seq<Order>, outcomes: seq<Outcome>, k: nat): Option<WonClaim> {
    if k < |orders| && k < |outcomes| && outcomes[k].Claimed?
    then Some(WonClaim(orders[k].lane.repository, orders[k].lane.subject, outcomes[k].boundary)) else None
  }

  /** The claims won are those of the orders that left as claimed, in order. */
  lemma {:induction false} WonExact(orders: seq<Order>, outcomes: seq<Outcome>)
    requires |orders| == |outcomes|
    ensures Picks(|orders|, (k: nat) => Wins(orders, outcomes, k), WonBy(orders, outcomes))
  {
    var pick := (k: nat) => Wins(orders, outcomes, k);
    if orders == [] {
      PicksNothing(pick);
    } else {
      var n := |orders| - 1;
      WonExact(orders[..n], outcomes[..n]);
      PicksNext(n, (k: nat) => Wins(orders[..n], outcomes[..n], k), pick, WonBy(orders[..n], outcomes[..n]));
    }
  }

  function GoesOut(orders: seq<Order>, outcomes: seq<Outcome>, k: nat): Option<string> {
    if k < |orders| && k < |outcomes| && (outcomes[k].Claimed? || outcomes[k].Adopted? || outcomes[k].AlreadyPublished?)
    then Some(orders[k].lane.subject) else None
  }

  /** The published schedule holds the orders that were claimed, adopted or published before, in order. */
  lemma {:induction false} PublishedExact(orders: seq<Order>, outcomes: seq<Outcome>)
    requires |orders| == |outcomes|
    ensures Picks(|orders|, (k: nat) => GoesOut(orders, outcomes, k), PublishedBy(orders, outcomes))
  {
    var pick := (k: nat) => GoesOut(orders, outcomes, k);
    if orders == [] {
      PicksNothing(pick);
    } else {
      var n := |orders| - 1;
      PublishedExact(orders[..n], outcomes[..n]);
      PicksNext(n, (k: nat) => GoesOut(orders[..n], outcomes[..n], k), pick, PublishedBy(orders[..n], outcomes[..n]));
    }
  }

  /** An order whose issue has an open PR never goes out, whatever the cycle does before it. */
  lemma OpenPrStaysIn(issues: seq<Schedule.Issue>, orders: seq<Order>, outcomes: seq<Outcome>, winners: set<string>,
                      orphans: set<string>, n: nat)
    requires n < |outcomes| <= |orders| && Judged(issues, orders, outcomes, winners, orphans)
    requires orders[n].reading.openPr
    ensures GoesOut(orders, outcomes, n).None? && Wins(orders, outcomes, n).None?
  {
    var reserved := TableAt(issues, orders, outcomes, n);
    assert Judge(orders[n], winners, orphans, reserved) == Outcome(outcomes[n]);
    EndsExact(orders[n], winners, orphans, reserved);
  }

  /** The ref a ruling leaves is the order's own, with the boundary it declared. */
  lemma CreatedExact(order: Order, winners: set<string>, orphans: set<string>, reserved: seq<Reservation>)
    ensures var ruling := Judge(order, winners, orphans, reserved);
            CreatedBy(order, ruling) ==
            if ruling == Raise(true) || (ruling.Outcome? && ruling.outcome.Claimed?)
            then [WonClaim(order.lane.repository, order.lane.subject, order.reading.boundary.value)] else []
  {
    JudgeCreates(order, winners, orphans, reserved);
    EndsExact(order, winners, orphans, reserved);
  }

  /** Orders are taken by repository, by number within one. */
  lemma OrdersByNumber(proposed: seq<Order>)
    ensures var orders := Sort(proposed, OrderLe);
            && multiset(orders) == multiset(proposed)
            && forall i, j :: 0 <= i < j < |orders| ==>
                 if orders[i].lane.repository == orders[j].lane.repository
                 then orders[i].lane.number <= orders[j].lane.number
                 else StrLe(orders[i].lane.repository, orders[j].lane.repository)
  {
    Schedule.LaneLeIsTotalPreorder();
    assert TotalPreorder(OrderLe) by {
      forall a: Order, b: Order ensures OrderLe(a, b) || OrderLe(b, a) {
        assert Schedule.LaneLe(a.lane, b.lane) || Schedule.LaneLe(b.lane, a.lane);
      }
    }
    SortSorts(proposed, OrderLe);
    SortKeeps(proposed, OrderLe);
  }

  // ----- widening

  lemma {:induction false} ConflictSnoc(candidate: seq<string>, reserved: seq<Reservation>, r: Reservation)
    ensures AdmissionConflict(candidate, reserved + [r]) ==
            if AdmissionConflict(candidate, reserved).Some? then AdmissionConflict(candidate, reserved)
            else AdmissionConflict(candidate, [r])
  {
    var all := reserved + [r];
    if reserved == [] {
      assert all == [r];
    } else {
      assert all[0] == reserved[0] && all[1..] == reserved[1..] + [r];
      ConflictSnoc(candidate, reserved[1..], r);
    }
  }

  /** Of the declared reservations, i is the first that shares a path with the candidate; m names it and the path. */
  ghost predicate MeetsDeclared(candidate: seq<string>, before: seq<Reservation>, i: nat, m: Meeting)
    requires i < |before|
  {
    && before[i].boundary.Some? && !Boundary.Disjoint(candidate, before[i].boundary.value)
    && m.subject == before[i].subject && Boundary.Conflict(candidate, before[i].boundary.value) == Some(m.prefix)
    && forall j :: 0 <= j < i && before[j].boundary.Some? ==> Boundary.Disjoint(candidate, before[j].boundary.value)
  }

  ghost predicate MissesDeclared(candidate: seq<string>, before: seq<Reservation>) {
    forall j :: 0 <= j < |before| && before[j].boundary.Some? ==>
      Boundary.Disjoint(candidate, before[j].boundary.value)
  }

  ghost predicate MeetsSome(candidate: seq<string>, before: seq<Reservation>, m: Meeting) {
    exists i :: 0 <= i < |before| && MeetsDeclared(candidate, before, i, m)
  }

  lemma OneDeclared(candidate: seq<string>, r: Reservation)
    requires r.boundary.Some?
    ensures match AdmissionConflict(candidate, [r])
            case None => Boundary.Disjoint(candidate, r.boundary.value)
            case Some(m) => && !Boundary.Disjoint(candidate, r.boundary.value) && m.subject == r.subject
                            && Boundary.Conflict(candidate, r.boundary.value) == Some(m.prefix)
  {
    Boundary.ConflictExact(candidate, r.boundary.value);
    assert AdmissionConflict(candidate, [r][1..]).None?;
  }

  lemma MeetsNext(candidate: seq<string>, before: seq<Reservation>, r: Reservation, m: Meeting)
    ensures MeetsSome(candidate, before, m) ==> MeetsSome(candidate, before + [r], m)
    ensures MissesDeclared(candidate, before) && r.boundary.Some? && AdmissionConflict(candidate, [r]) == Some(m) ==>
              MeetsSome(candidate, before + [r], m)
  {
    var all := before + [r];
    assert all[|before|] == r;
    if i :| 0 <= i < |before| && MeetsDeclared(candidate, before, i, m) {
      assert MeetsDeclared(candidate, all, i, m);
    }
    if MissesDeclared(candidate, before) && r.boundary.Some? && AdmissionConflict(candidate, [r]) == Some(m) {
      OneDeclared(candidate, r);
      assert MeetsDeclared(candidate, all, |before|, m);
    }
  }

  lemma {:induction false} FirstDeclared(candidate: seq<string>, before: seq<Reservation>)
    ensures match AdmissionConflict(candidate, DeclaredOnly(before))
            case None => MissesDeclared(candidate, before)
            case Some(m) => MeetsSome(candidate, before, m)
  {
    if before == [] {
      assert DeclaredOnly(before) == [] && AdmissionConflict(candidate, []).None?;
    } else {
      var n := |before| - 1;
      var front, last := before[..n], before[n];
      assert before == front + [last];
      FirstDeclared(candidate, front);
      var m := AdmissionConflict(candidate, DeclaredOnly(before));
      if last.boundary.Some? {
        assert DeclaredOnly(before) == DeclaredOnly(front) + [last];
        ConflictSnoc(candidate, DeclaredOnly(front), last);
        OneDeclared(candidate, last);
      } else {
        assert DeclaredOnly(before) == DeclaredOnly(front);
      }
      if m.Some? { MeetsNext(candidate, front, last, m.value); }
    }
  }

  /** Claim k shares a path with an earlier one, both declared. */
  ghost predicate Widened(reserved: seq<Reservation>, k: nat)
    requires k < |reserved|
  {
    exists i :: 0 <= i < k && !Apart(reserved[i], reserved[k])
  }

  /** The report of claim k names it, the first earlier claim it meets, and a path under both. */
  ghost predicate Reports(reserved: seq<Reservation>, k: nat, w: Widening)
    requires k < |reserved|
  {
    && w.subject == reserved[k].subject && reserved[k].boundary.Some?
    && exists i :: 0 <= i < k && MeetsDeclared(reserved[k].boundary.value, reserved, i, Meeting(w.sibling, w.prefix))
  }

  /** Report m is that of the claim at place at[m], places in order, and every widened claim has its place. */
  ghost predicate ReportsAt(reserved: seq<Reservation>, widened: seq<Widening>, at: seq<nat>) {
    && |at| == |widened| && (forall m, n :: 0 <= m < n < |at| ==> at[m] < at[n])
    && (forall m :: 0 <= m < |at| ==> at[m] < |reserved| && Reports(reserved, at[m], widened[m]))
    && forall k: nat :: k < |reserved| && Widened(reserved, k) ==> k in at
  }

  lemma OneReport(reserved: seq<Reservation>)
    requires reserved != []
    ensures var n := |reserved| - 1; var report := WideningOf(reserved[..n], reserved[n]);
            && |report| <= 1 && (report == [] <==> !Widened(reserved, n))
            && (report != [] ==> Reports(reserved, n, report[0]))
  {
    var n := |reserved| - 1;
    var before, last := reserved[..n], reserved[n];
    if last.boundary.Some? {
      FirstDeclared(last.boundary.value, before);
      var m := AdmissionConflict(last.boundary.value, DeclaredOnly(before));
      DisjointSwaps(before, last);
      if m.Some? {
        var i :| 0 <= i < n && MeetsDeclared(last.boundary.value, before, i, m.value);
        assert MeetsDeclared(last.boundary.value, reserved, i, Meeting(m.value.subject, m.value.prefix));
        assert !Apart(reserved[i], last);
      }
    }
  }

  lemma DisjointSwaps(before: seq<Reservation>, r: Reservation)
    requires r.boundary.Some?
    ensures forall i :: 0 <= i < |before| ==>
              (Apart(before[i], r) <==>
                 (before[i].boundary.Some? ==> Boundary.Disjoint(r.boundary.value, before[i].boundary.value)))
  {
  }

  lemma ReportsNext(reserved: seq<Reservation>, widened: seq<Widening>, at: seq<nat>)
    requires reserved != [] && ReportsAt(reserved[..|reserved| - 1], widened, at)
    ensures var n := |reserved| - 1; var report := WideningOf(reserved[..n], reserved[n]);
            ReportsAt(reserved, widened + report, at + (if report == [] then [] else [n]))
  {
    var n := |reserved| - 1;
    var report, before := WideningOf(reserved[..n], reserved[n]), reserved[..n];
    var widened', at' := widened + report, at + (if report == [] then [] else [n]);
    OneReport(reserved);
    forall m | 0 <= m < |at'| ensures at'[m] <= n && Reports(reserved, at'[m], widened'[m]) {
      if m < |at| { ReportStays(reserved, at[m], widened[m]); }
    }
    forall k: nat | k <= n && Widened(reserved, k) ensures k in at' {
      if k < n {
        var i :| 0 <= i < k && !Apart(reserved[i], reserved[k]);
        assert !Apart(before[i], before[k]);
        assert Widened(before, k);
      } else {
        assert at'[|at|] == n;
      }
    }
  }

  lemma ReportStays(reserved: seq<Reservation>, k: nat, w: Widening)
    requires k < |reserved| - 1 && Reports(reserved[..|reserved| - 1], k, w)
    ensures Reports(reserved, k, w)
  {
    var before := reserved[..|reserved| - 1];
    var candidate := reserved[k].boundary.value;
    var i :| 0 <= i < k && MeetsDeclared(candidate, before, i, Meeting(w.sibling, w.prefix));
    assert MeetsDeclared(candidate, reserved, i, Meeting(w.sibling, w.prefix));
  }

  /** The widening report holds one report for each declared claim that shares a path with an earlier one, in the
      order of the claims. */
  lemma {:induction false} WideningsExact(reserved: seq<Reservation>)
    ensures exists at :: ReportsAt(reserved, Widenings(reserved), at)
  {
    if reserved == [] {
      var at: seq<nat> := [];
      assert ReportsAt(reserved, Widenings(reserved), at);
    } else {
      var n := |reserved| - 1;
      WideningsExact(reserved[..n]);
      var before := Widenings(reserved[..n]);
      var at :| ReportsAt(reserved[..n], before, at);
      ReportsNext(reserved, before, at);
      assert Widenings(reserved) == before + WideningOf(reserved[..n], reserved[n]);
    }
  }
}
