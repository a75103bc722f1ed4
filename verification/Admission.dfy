/** The admission cycle of schedule_publish and invariant I3: admitted lanes write disjoint surfaces
    (noodles.py:5056-5102, noodles.py:5143-5350). */
module Admission {
  import opened Wrappers
  import opened Ordering
  import Boundary
  import Schedule

  datatype Reservation = Reservation(subject: string, boundary: Option<seq<string>>)

  /** The reserved lane that stands in the way, and the surface they share. */
  datatype Meeting = Meeting(subject: string, prefix: string)

  function AdmissionConflict(candidate: seq<string>, reserved: seq<Reservation>): Option<Meeting> {
    if reserved == [] then None
    else if reserved[0].boundary.None? then Some(Meeting(reserved[0].subject, Boundary.NO_WRITE_BOUNDARY))
    else
      var prefix := Boundary.Conflict(candidate, reserved[0].boundary.value);
      if prefix.Some? then Some(Meeting(reserved[0].subject, prefix.value))
      else AdmissionConflict(candidate, reserved[1..])
  }

  ghost predicate Clear(candidate: seq<string>, r: Reservation) {
    r.boundary.Some? && Boundary.Disjoint(candidate, r.boundary.value)
  }

  ghost predicate ClearOfAll(candidate: seq<string>, reserved: seq<Reservation>) {
    forall k :: 0 <= k < |reserved| ==> Clear(candidate, reserved[k])
  }

  /** A candidate passes exactly when every reservation is declared and disjoint from it. */
  lemma {:induction false} AdmissionConflictExact(candidate: seq<string>, reserved: seq<Reservation>)
    ensures AdmissionConflict(candidate, reserved).None? <==> ClearOfAll(candidate, reserved)
  {
    if reserved == [] {
    } else {
      AdmissionConflictExact(candidate, reserved[1..]);
      if reserved[0].boundary.Some? {
        Boundary.ConflictExact(candidate, reserved[0].boundary.value);
      }
      assert forall k :: 1 <= k < |reserved| ==> reserved[k] == reserved[1..][k - 1];
    }
  }

  // ----- widening after the claim

  datatype Widening = Widening(subject: string, sibling: string, prefix: string)

  function DeclaredOnly(reserved: seq<Reservation>): seq<Reservation> {
    if reserved == [] then []
    else
      var last := reserved[|reserved| - 1];
      DeclaredOnly(reserved[..|reserved| - 1]) + (if last.boundary.Some? then [last] else [])
  }

  /** What a live claim reports against the declared claims before it. */
  function WideningOf(before: seq<Reservation>, r: Reservation): seq<Widening> {
    if r.boundary.None? then []
    else
      var conflict := AdmissionConflict(r.boundary.value, DeclaredOnly(before));
      if conflict.Some? then [Widening(r.subject, conflict.value.subject, conflict.value.prefix)] else []
  }

  function Widenings(reserved: seq<Reservation>): seq<Widening> {
    if reserved == [] then []
    else
      var before := reserved[..|reserved| - 1];
      Widenings(before) + WideningOf(before, reserved[|reserved| - 1])
  }

  method ClaimedBoundaryWidening(reserved: seq<Reservation>) returns (widened: seq<Widening>)
    ensures widened == Widenings(reserved)
  {
    var seen: seq<Reservation> := [];
    widened := [];
    for k := 0 to |reserved|
      invariant seen == DeclaredOnly(reserved[..k]) && widened == Widenings(reserved[..k])
    {
      assert reserved[..k + 1][..k] == reserved[..k];
      var r := reserved[k];
      if r.boundary.Some? {
        var conflict := AdmissionConflict(r.boundary.value, seen);
        if conflict.Some? {
          widened := widened + [Widening(r.subject, conflict.value.subject, conflict.value.prefix)];
        }
        seen := seen + [r];
      }
    }
    assert reserved[..|reserved|] == reserved;
  }

  /** Invariant I3 over one repository's live claims, undeclared ones aside. */
  ghost predicate PairwiseDisjoint(reserved: seq<Reservation>) {
    forall i, j :: 0 <= i < j < |reserved| ==> Apart(reserved[i], reserved[j])
  }

  ghost predicate Apart(a: Reservation, b: Reservation) {
    a.boundary.Some? && b.boundary.Some? ==> Boundary.Disjoint(a.boundary.value, b.boundary.value)
  }

  lemma {:induction false} ClearOfDeclared(candidate: seq<string>, reserved: seq<Reservation>)
    ensures ClearOfAll(candidate, DeclaredOnly(reserved)) <==>
            forall k :: 0 <= k < |reserved| && reserved[k].boundary.Some? ==> Clear(candidate, reserved[k])
  {
    if reserved == [] {
    } else {
      var before, last := reserved[..|reserved| - 1], reserved[|reserved| - 1];
      ClearOfDeclared(candidate, before);
      var d := DeclaredOnly(before);
      if last.boundary.Some? {
        assert DeclaredOnly(reserved) == d + [last];
        assert ClearOfAll(candidate, d + [last]) <==> ClearOfAll(candidate, d) && Clear(candidate, last) by {
          assert (d + [last])[|d|] == last;
          assert forall k :: 0 <= k < |d| ==> (d + [last])[k] == d[k];
        }
      } else {
        assert DeclaredOnly(reserved) == d;
      }
    }
  }

  /** The widening report is empty exactly when the declared reservations are pairwise disjoint. */
  lemma {:induction false} NoWideningIffDisjoint(reserved: seq<Reservation>)
    ensures Widenings(reserved) == [] <==> PairwiseDisjoint(reserved)
  {
    if reserved == [] {
    } else {
      var before, last := reserved[..|reserved| - 1], reserved[|reserved| - 1];
      NoWideningIffDisjoint(before);
      if last.boundary.Some? {
        AdmissionConflictExact(last.boundary.value, DeclaredOnly(before));
        ClearOfDeclared(last.boundary.value, before);
      }
      assert WideningOf(before, last) == [] <==> forall i :: 0 <= i < |before| ==> Apart(before[i], last);
      assert forall i :: 0 <= i < |before| ==> before[i] == reserved[i];
    }
  }

  // ----- one order

  datatype Adoption = Held | Published | Contradicted | Adoptable

  /** What claim_execute_branch comes to: the ref is created and read back, is held by another executor,
      is refused, or is created without the readback matching. */
  datatype Claim = Won | Elsewhere | Refused | Unmatched

  /** Everything the cycle reads about one order before and while it acts on it. */
  datatype Reading = Reading(
    freshWinner: bool, readable: bool, schedulable: bool, admitted: bool, boundary: Option<seq<string>>,
    openPr: bool, adoption: Adoption, identified: bool, claim: Claim, handedOff: bool)

  datatype Order = Order(lane: Schedule.Lane, reading: Reading)

  datatype Outcome =
    | NotInWinners | FrontierChanged | DependencyChanged | ExecutorRefused | BoundaryUndeclared
    | BoundaryConflict(meeting: Meeting) | OpenPrExists | AdoptionHeld | AlreadyPublished
    | ClaimedElsewhere | Adopted(boundary: seq<string>) | Claimed(boundary: seq<string>)

  /** How one order leaves the cycle: with an outcome, or by an error that ends the cycle, in which
      case the execute ref may just have been created. */
  datatype Ruling = Outcome(outcome: Outcome) | Raise(created: bool)

  function Others(reserved: seq<Reservation>, subject: string): seq<Reservation> {
    if reserved == [] then []
    else
      var last := reserved[|reserved| - 1];
      Others(reserved[..|reserved| - 1], subject) + (if last.subject == subject then [] else [last])
  }

  function Judge(order: Order, winners: set<string>, orphans: set<string>, reserved: seq<Reservation>): Ruling {
    var r, subject := order.reading, order.lane.subject;
    var orphan := subject in orphans;
    if subject !in winners && !orphan then Outcome(NotInWinners)
    else if !r.freshWinner && !orphan then Outcome(FrontierChanged)
    else if !r.readable then Raise(false)
    else if !r.schedulable then Outcome(DependencyChanged)
    else if !r.admitted then Outcome(ExecutorRefused)
    else if r.boundary.None? then Outcome(BoundaryUndeclared)
    else
      var conflict := AdmissionConflict(r.boundary.value, if orphan then Others(reserved, subject) else reserved);
      if conflict.Some? then Outcome(BoundaryConflict(conflict.value))
      else if r.openPr then Outcome(OpenPrExists)
      else if orphan && r.adoption == Held then Outcome(AdoptionHeld)
      else if orphan && r.adoption == Published then Outcome(AlreadyPublished)
      else if orphan && r.adoption == Contradicted then Raise(false)
      else if !r.identified then Raise(false)
      else if orphan then if r.handedOff then Outcome(Adopted(r.boundary.value)) else Raise(false)
      else match r.claim
        case Refused => Raise(false)
        case Unmatched => Raise(true)
        case Elsewhere => Outcome(ClaimedElsewhere)
        case Won => if r.handedOff then Outcome(Claimed(r.boundary.value)) else Raise(true)
  }

  predicate OrderLe(a: Order, b: Order) {
    Schedule.LaneLe(a.lane, b.lane)
  }

  // ----- the cycle

  /** An execute ref this cycle created. */
  datatype WonClaim = WonClaim(repository: string, subject: string, boundary: seq<string>)

  function ReservedOf(issues: seq<Schedule.Issue>, repo: string): seq<Reservation> {
    if issues == [] then []
    else
      var last := issues[|issues| - 1];
      ReservedOf(issues[..|issues| - 1], repo)
      + (if last.claimed && last.repository == repo then [Reservation(last.subject, last.boundary)] else [])
  }

  function WonIn(won: seq<WonClaim>, repo: string): seq<Reservation> {
    if won == [] then []
    else
      var last := won[|won| - 1];
      WonIn(won[..|won| - 1], repo)
        + (if last.repository == repo then [Reservation(last.subject, Some(last.boundary))] else [])
  }

  function Lookup(table: map<string, seq<Reservation>>, repo: string): seq<Reservation> {
    if repo in table then table[repo] else []
  }

  method ReserveClaimed(issues: seq<Schedule.Issue>) returns (table: map<string, seq<Reservation>>)
    ensures forall repo :: Lookup(table, repo) == ReservedOf(issues, repo)
  {
    table := map[];
    for k := 0 to |issues|
      invariant forall repo :: Lookup(table, repo) == ReservedOf(issues[..k], repo)
    {
      assert issues[..k + 1][..k] == issues[..k];
      if issues[k].claimed {
        var repo := issues[k].repository;
        table := table[repo := Lookup(table, repo) + [Reservation(issues[k].subject, issues[k].boundary)]];
      }
    }
    assert issues[..|issues|] == issues;
  }

  /** The claim each finished order left on the provider, in order. */
  function WonBy(orders: seq<Order>, outcomes: seq<Outcome>): seq<WonClaim>
    requires |orders| == |outcomes|
  {
    if orders == [] then []
    else
      var n := |orders| - 1;
      WonBy(orders[..n], outcomes[..n])
      + (if outcomes[n].Claimed?
        then [WonClaim(orders[n].lane.repository, orders[n].lane.subject, outcomes[n].boundary)] else [])
  }

  /** The reservations order n is judged against: those read at the start, then this cycle's own. */
  ghost function TableAt(
    issues: seq<Schedule.Issue>, orders: seq<Order>, outcomes: seq<Outcome>, n: nat): seq<Reservation>
    requires n < |orders| && n <= |outcomes|
  {
    var repo := orders[n].lane.repository;
    ReservedOf(issues, repo) + WonIn(WonBy(orders[..n], outcomes[..n]), repo)
  }

  /** Every claim was clear of the reservations of its repository when it was won. */
  ghost predicate WonClear(issues: seq<Schedule.Issue>, won: seq<WonClaim>) {
    forall a :: 0 <= a < |won| ==>
      ClearOfAll(won[a].boundary, ReservedOf(issues, won[a].repository) + WonIn(won[..a], won[a].repository))
  }

  lemma WonClearNext(issues: seq<Schedule.Issue>, won: seq<WonClaim>, w: WonClaim)
    requires WonClear(issues, won)
    requires AdmissionConflict(w.boundary, ReservedOf(issues, w.repository) + WonIn(won, w.repository)).None?
    ensures WonClear(issues, won + [w])
  {
    AdmissionConflictExact(w.boundary, ReservedOf(issues, w.repository) + WonIn(won, w.repository));
    var all := won + [w];
    forall a | 0 <= a < |all|
      ensures ClearOfAll(all[a].boundary, ReservedOf(issues, all[a].repository) + WonIn(all[..a], all[a].repository))
    {
      assert all[..a] == won[..a];
      if a == |won| { assert won[..a] == won; }
    }
  }

  /** Each finished order left with the outcome its readings and reservations call for. */
  ghost predicate Judged(
    issues: seq<Schedule.Issue>, orders: seq<Order>, outcomes: seq<Outcome>, winners: set<string>, orphans: set<string>)
    requires |outcomes| <= |orders|
  {
    forall n :: 0 <= n < |outcomes| ==>
      Judge(orders[n], winners, orphans, TableAt(issues, orders, outcomes, n)) == Outcome(outcomes[n])
  }

  /** What the loop knows after some orders: their outcomes, the refs created and the orders published. */
  ghost predicate Progress(
    issues: seq<Schedule.Issue>, orders: seq<Order>, winners: set<string>, orphans: set<string>,
    outcomes: seq<Outcome>, won: seq<WonClaim>, published: seq<string>)
  {
    && |outcomes| <= |orders| && Judged(issues, orders, outcomes, winners, orphans)
    && won == WonBy(orders[..|outcomes|], outcomes)
    && published == PublishedBy(orders[..|outcomes|], outcomes)
    && WonClear(issues, won) && AllWinners(won, winners, orphans)
  }

  ghost predicate AllWinners(won: seq<WonClaim>, winners: set<string>, orphans: set<string>) {
    forall a :: 0 <= a < |won| ==> won[a].subject in winners && won[a].subject !in orphans
  }

  lemma ProgressNext(
    issues: seq<Schedule.Issue>, orders: seq<Order>, winners: set<string>, orphans: set<string>,
    outcomes: seq<Outcome>, won: seq<WonClaim>, published: seq<string>, o: Outcome)
    requires Progress(issues, orders, winners, orphans, outcomes, won, published) && |outcomes| < |orders|
    requires Judge(orders[|outcomes|], winners, orphans, TableAt(issues, orders, outcomes, |outcomes|)) == Outcome(o)
    ensures Progress(issues, orders, winners, orphans, outcomes + [o], won + CreatedBy(orders[|outcomes|], Outcome(o)),
                     published + (if Publishes(o) then [orders[|outcomes|].lane.subject] else []))
  {
    assert outcomes[..|outcomes|] == outcomes;
    Extend(issues, orders, outcomes, o);
    CreatedIsClear(issues, won, orders[|outcomes|], winners, orphans);
  }

  /** The ref an order's ruling leaves on the provider, if any. */
  function CreatedBy(order: Order, ruling: Ruling): seq<WonClaim> {
    if (ruling == Raise(true) || (ruling.Outcome? && ruling.outcome.Claimed?)) && order.reading.boundary.Some?
    then [WonClaim(order.lane.repository, order.lane.subject, order.reading.boundary.value)]
    else []
  }

  /** A ref is created only for a winner without a claim, whose boundary passes. */
  lemma JudgeCreates(order: Order, winners: set<string>, orphans: set<string>, reserved: seq<Reservation>)
    ensures var ruling := Judge(order, winners, orphans, reserved);
            && |CreatedBy(order, ruling)| <= 1
            && (CreatedBy(order, ruling) != [] ==>
                  IsCleared(order, winners, orphans, reserved, CreatedBy(order, ruling)[0]))
            && (ruling.Outcome? && ruling.outcome.Claimed? ==> order.reading.boundary == Some(ruling.outcome.boundary))
            && (ruling.Raise? ==> |CreatedBy(order, ruling)| == if ruling.created then 1 else 0)
  {
  }

  lemma CreatedCount(order: Order, winners: set<string>, orphans: set<string>, reserved: seq<Reservation>)
    ensures |CreatedBy(order, Judge(order, winners, orphans, reserved))| <= 1
  {
  }

  predicate IsCleared(
    order: Order, winners: set<string>, orphans: set<string>, reserved: seq<Reservation>, w: WonClaim)
  {
    && w.repository == order.lane.repository && w.subject in winners && w.subject !in orphans
    && AdmissionConflict(w.boundary, reserved).None?
  }

  lemma ClearedStaysClear(issues: seq<Schedule.Issue>, won: seq<WonClaim>, order: Order, winners: set<string>,
                          orphans: set<string>, created: seq<WonClaim>)
    requires WonClear(issues, won) && AllWinners(won, winners, orphans) && |created| <= 1
    requires var repo := order.lane.repository;
             created != [] ==>
               IsCleared(order, winners, orphans, ReservedOf(issues, repo) + WonIn(won, repo), created[0])
    ensures WonClear(issues, won + created) && AllWinners(won + created, winners, orphans)
  {
    if created != [] {
      WonClearNext(issues, won, created[0]);
      assert created == [created[0]];
    } else {
      assert won + created == won;
    }
  }

  lemma CreatedIsClear(
    issues: seq<Schedule.Issue>, won: seq<WonClaim>, order: Order, winners: set<string>, orphans: set<string>)
    requires WonClear(issues, won) && AllWinners(won, winners, orphans)
    ensures var repo := order.lane.repository;
            var ruling := Judge(order, winners, orphans, ReservedOf(issues, repo) + WonIn(won, repo));
            && WonClear(issues, won + CreatedBy(order, ruling))
            && AllWinners(won + CreatedBy(order, ruling), winners, orphans)
            && (ruling.Outcome? && ruling.outcome.Claimed? ==> order.reading.boundary == Some(ruling.outcome.boundary))
            && (ruling.Raise? ==> |CreatedBy(order, ruling)| == if ruling.created then 1 else 0)
  {
    var repo := order.lane.repository;
    var reserved := ReservedOf(issues, repo) + WonIn(won, repo);
    JudgeCreates(order, winners, orphans, reserved);
    ClearedStaysClear(issues, won, order, winners, orphans, CreatedBy(order, Judge(order, winners, orphans, reserved)));
  }

  function Reserve(table: map<string, seq<Reservation>>, created: seq<WonClaim>): map<string, seq<Reservation>> {
    if created == [] then table
    else
      var w := created[0];
      table[w.repository := Lookup(table, w.repository) + [Reservation(w.subject, Some(w.boundary))]]
  }

  ghost predicate TableHolds(table: map<string, seq<Reservation>>, issues: seq<Schedule.Issue>, won: seq<WonClaim>) {
    forall repo :: Lookup(table, repo) == ReservedOf(issues, repo) + WonIn(won, repo)
  }

  lemma TableNext(
    table: map<string, seq<Reservation>>, issues: seq<Schedule.Issue>, won: seq<WonClaim>, created: seq<WonClaim>)
    requires TableHolds(table, issues, won) && |created| <= 1
    ensures TableHolds(Reserve(table, created), issues, won + created)
  {
    if created == [] {
      assert won + created == won;
    } else {
      var w := created[0];
      var after := Reserve(table, created);
      assert won + created == won + [w];
      forall repo ensures Lookup(after, repo) == ReservedOf(issues, repo) + WonIn(won + [w], repo) {
        var mine := if w.repository == repo then [Reservation(w.subject, Some(w.boundary))] else [];
        WonInSnoc(won, w, repo);
        assert Lookup(table, repo) == ReservedOf(issues, repo) + WonIn(won, repo);
        assert Lookup(after, repo) == Lookup(table, repo) + mine;
        assert ReservedOf(issues, repo) + (WonIn(won, repo) + mine) ==
          ReservedOf(issues, repo) + WonIn(won, repo) + mine;
      }
    }
  }

  lemma WonInSnoc(won: seq<WonClaim>, w: WonClaim, repo: string)
    ensures WonIn(won + [w], repo) ==
            WonIn(won, repo) + (if w.repository == repo then [Reservation(w.subject, Some(w.boundary))] else [])
  {
    assert (won + [w])[..|won|] == won;
  }

  /** The order after the finished ones raises, and the refs are theirs and the one it leaves. */
  ghost predicate Raises(
    issues: seq<Schedule.Issue>, orders: seq<Order>, outcomes: seq<Outcome>, winners: set<string>,
    orphans: set<string>, won: seq<WonClaim>)
    requires |outcomes| < |orders|
  {
    var n := |outcomes|;
    var ruling := Judge(orders[n], winners, orphans, TableAt(issues, orders, outcomes, n));
    ruling.Raise? && won == WonBy(orders[..n], outcomes) + CreatedBy(orders[n], ruling)
  }

  lemma RaiseStops(
    issues: seq<Schedule.Issue>, orders: seq<Order>, winners: set<string>, orphans: set<string>,
    outcomes: seq<Outcome>, won: seq<WonClaim>, published: seq<string>)
    requires Progress(issues, orders, winners, orphans, outcomes, won, published) && |outcomes| < |orders|
    requires Judge(orders[|outcomes|], winners, orphans, TableAt(issues, orders, outcomes, |outcomes|)).Raise?
    ensures var n := |outcomes|;
            var ruling := Judge(orders[n], winners, orphans, TableAt(issues, orders, outcomes, n));
            var all := won + CreatedBy(orders[n], ruling);
            && Raises(issues, orders, outcomes, winners, orphans, all) && WonBy(orders[..n], outcomes) <= all
            && WonClear(issues, all) && AllWinners(all, winners, orphans)
  {
    assert outcomes[..|outcomes|] == outcomes;
    CreatedIsClear(issues, won, orders[|outcomes|], winners, orphans);
  }

  method Publish(issues: seq<Schedule.Issue>, proposed: seq<Order>, orphans: set<string>)
    returns (decision: Schedule.Decision, orders: seq<Order>, outcomes: seq<Outcome>, won: seq<WonClaim>,
             published: seq<string>, aborted: bool)
    ensures Schedule.IsDecision(issues, decision)
    ensures orders == Sort(proposed, OrderLe) && |outcomes| <= |orders|
    ensures aborted <==> |outcomes| < |orders|
    ensures Judged(issues, orders, outcomes, Elements(decision.winners), orphans)
    ensures aborted ==> Raises(issues, orders, outcomes, Elements(decision.winners), orphans, won)
    ensures WonBy(orders[..|outcomes|], outcomes) <= won && (!aborted ==> won == WonBy(orders, outcomes))
    ensures WonClear(issues, won) && AllWinners(won, Elements(decision.winners), orphans)
    ensures published == if aborted then [] else PublishedBy(orders, outcomes)
  {
    decision := Schedule.Decide(issues);
    var winners := Elements(decision.winners);
    orders := Sort(proposed, OrderLe);
    var table := ReserveClaimed(issues);
    outcomes, won, published := [], [], [];
    aborted := true;
    for n := 0 to |orders|
      invariant |outcomes| == n && Progress(issues, orders, winners, orphans, outcomes, won, published)
      invariant TableHolds(table, issues, won)
    {
      assert outcomes[..n] == outcomes;
      var reserved := Lookup(table, orders[n].lane.repository);
      assert reserved == TableAt(issues, orders, outcomes, n);
      var ruling := Judge(orders[n], winners, orphans, reserved);
      var created := CreatedBy(orders[n], ruling);
      CreatedCount(orders[n], winners, orphans, reserved);
      TableNext(table, issues, won, created);
      if ruling.Raise? {
        RaiseStops(issues, orders, winners, orphans, outcomes, won, published);
        won, published := won + created, [];
        return;
      }
      ProgressNext(issues, orders, winners, orphans, outcomes, won, published, ruling.outcome);
      won, table := won + created, Reserve(table, created);
      published := published + if Publishes(ruling.outcome) then [orders[n].lane.subject] else [];
      outcomes := outcomes + [ruling.outcome];
    }
    assert orders[..|orders|] == orders;
    aborted := false;
  }

  predicate Publishes(outcome: Outcome) {
    outcome.Claimed? || outcome.Adopted? || outcome.AlreadyPublished?
  }

  /** The orders that go into the published schedule. */
  function PublishedBy(orders: seq<Order>, outcomes: seq<Outcome>): seq<string>
    requires |orders| == |outcomes|
  {
    if orders == [] then []
    else
      var n := |orders| - 1;
      PublishedBy(orders[..n], outcomes[..n]) + (if Publishes(outcomes[n]) then [orders[n].lane.subject] else [])
  }

  lemma Extend(issues: seq<Schedule.Issue>, orders: seq<Order>, outcomes: seq<Outcome>, o: Outcome)
    requires |outcomes| < |orders|
    ensures var n := |outcomes|; var all := outcomes + [o];
            && orders[..n + 1][..n] == orders[..n] && all[..n] == outcomes && all[..n + 1] == all
            && forall k :: 0 <= k <= n ==> TableAt(issues, orders, all, k) == TableAt(issues, orders, outcomes, k)
  {
    var n := |outcomes|;
    var all := outcomes + [o];
    forall k | 0 <= k <= n ensures TableAt(issues, orders, all, k) == TableAt(issues, orders, outcomes, k) {
      assert all[..k] == outcomes[..k];
    }
  }
}
