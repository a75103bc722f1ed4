/** The whole of the scheduler's decision, said of the issues' own fields and the plain dependency graph
    (schedule_domain.py:32-84). */
module ScheduleExact {
  import opened Ordering
  import opened Schedule
  import opened ScheduleTheorems

  /** Issue i names issue j among its dependencies, in one repository. */
  ghost predicate Names(issues: seq<Issue>, repo: string, i: nat, j: nat) {
    && i < |issues| && j < |issues| && issues[i].repository == repo && issues[j].repository == repo
    && issues[j].subject in issues[i].dependencies
  }

  /** An edge of the dependency graph: one issue of the repository names another. */
  lemma LinksExact(issues: seq<Issue>, repo: string, x: string, y: string)
    ensures (x, y) in LinksOf(issues, repo) <==>
            exists i: nat, j: nat :: Names(issues, repo, i, j) && issues[i].subject == x && issues[j].subject == y
  {
    if (x, y) in LinksOf(issues, repo) {
      var i :| 0 <= i < |issues| && issues[i].repository == repo && issues[i].subject == x
               && y in issues[i].dependencies && Named(issues, repo, y);
      var j :| 0 <= j < |issues| && issues[j].repository == repo && issues[j].subject == y;
      assert Names(issues, repo, i, j);
    }
    if i: nat, j: nat :| Names(issues, repo, i, j) && issues[i].subject == x && issues[j].subject == y {
      assert Named(issues, repo, y);
    }
  }

  /** Issue i may run: it is p0 and schedulable, no claim in its repository is malformed, and no claimed issue is in
      its component. */
  ghost predicate MayRun(issues: seq<Issue>, i: nat) {
    && i < |issues| && issues[i].p0 && issues[i].schedulable
    && forall j: nat :: j < |issues| && issues[j].claimed ==>
         !(issues[j].repository == issues[i].repository && issues[j].malformed) && !SameComponent(issues, j, i)
  }

  lemma MayRunExact(issues: seq<Issue>, i: nat)
    requires i < |issues|
    ensures MayRun(issues, i) <==> Eligible(issues, i)
  {
    if !MayRun(issues, i) && issues[i].p0 && issues[i].schedulable {
      var j: nat :| && j < |issues| && issues[j].claimed
                    && ((issues[j].repository == issues[i].repository && issues[j].malformed)
                        || SameComponent(issues, j, i));
      assert Poisoned(issues, issues[i].repository) || Held(issues, i);
    }
  }

  /** g lists, by number, the issues of one component that may run. */
  ghost predicate Lists(issues: seq<Issue>, g: seq<nat>) {
    && g != [] && g[0] < |issues|
    && (forall i: nat :: i in g <==> MayRun(issues, i) && SameComponent(issues, g[0], i))
    && forall a, b :: 0 <= a < b < |g| && g[a] < |issues| && g[b] < |issues| ==>
         g[a] != g[b] && issues[g[a]].number <= issues[g[b]].number
  }

  /** By repository, and by lowest number within one. */
  ghost predicate Before(issues: seq<Issue>, i: nat, j: nat) {
    && i < |issues| && j < |issues| && !SameComponent(issues, i, j)
    && if issues[i].repository == issues[j].repository then issues[i].number <= issues[j].number
       else StrLe(issues[i].repository, issues[j].repository)
  }

  /** Component k of the decision is the issues of g, its winner the first of them. */
  ghost predicate Shows(issues: seq<Issue>, decision: Decision, k: nat, g: seq<nat>) {
    && k < |decision.components| && k < |decision.winners| && Lists(issues, g)
    && |decision.components[k]| == |g| && decision.winners[k] == issues[g[0]].subject
    && forall a :: 0 <= a < |g| ==> g[a] < |issues| && decision.components[k][a] == issues[g[a]].subject
  }

  ghost predicate ShowsAll(issues: seq<Issue>, decision: Decision, lists: seq<seq<nat>>) {
    && |decision.components| == |lists| && |decision.winners| == |lists| && decision.maxUsefulWorkers == |lists|
    && (forall k {:trigger Shows(issues, decision, k, lists[k])} :: 0 <= k < |lists| ==>
                                                                      Shows(issues, decision, k, lists[k]))
    && (forall k, l :: 0 <= k < l < |lists| ==>
          lists[k] != [] && lists[l] != [] && Before(issues, lists[k][0], lists[l][0]))
    && forall i: nat :: MayRun(issues, i) ==> exists k :: 0 <= k < |lists| && i in lists[k]
  }

  function Positions(g: seq<Slot>): (r: seq<nat>)
    ensures |r| == |g| && forall a :: 0 <= a < |r| ==> r[a] == g[a].pos
  {
    seq(|g|, a requires 0 <= a < |g| => g[a].pos)
  }

  lemma ComponentLists(issues: seq<Issue>, g: seq<Slot>)
    requires IsComponent(issues, g)
    ensures Lists(issues, Positions(g)) && forall s :: s in g ==> s.pos < |issues| && s == SlotOf(issues, s.pos)
  {
    var p := Positions(g);
    forall a | 0 <= a < |g| ensures p[a] < |issues| { assert g[a] in g && SlotAt(issues, g[a]); }
    forall i: nat ensures i in p <==> MayRun(issues, i) && SameComponent(issues, p[0], i) {
      if i < |issues| {
        MayRunExact(issues, i);
        var s := SlotOf(issues, i);
        assert SlotAt(issues, s);
        if i in p {
          var a :| 0 <= a < |p| && p[a] == i;
          assert g[a] in g && SlotAt(issues, g[a]);
        }
        if s in g {
          var a :| 0 <= a < |g| && g[a] == s;
          assert p[a] == i;
        }
      } else {
        assert i !in p;
      }
    }
    forall a, b | 0 <= a < b < |p| && p[a] < |issues| && p[b] < |issues|
      ensures p[a] != p[b] && issues[p[a]].number <= issues[p[b]].number
    {
      assert g[a] in g && g[b] in g && SlotLe(g[a], g[b]) && g[a] != g[b];
      assert SlotAt(issues, g[a]) && SlotAt(issues, g[b]);
    }
  }

  lemma DescribeShows(issues: seq<Issue>, comps: seq<seq<Slot>>, decision: Decision, k: nat)
    requires Decides(issues, comps, decision) && k < |comps|
    ensures Shows(issues, decision, k, Positions(comps[k]))
  {
    var g := comps[k];
    ComponentLists(issues, g);
    forall a | 0 <= a < |g| ensures decision.components[k][a] == issues[g[a].pos].subject {
      assert g[a] in g;
      assert decision.components[k][a] == LanesOf(comps)[k][a].subject;
    }
    assert g[0] in g;
  }

  /** The decision lists each component that has an issue which may run, once, in order: all of them by number, its
      winner the first, and one worker for each. */
  lemma DecisionExact(issues: seq<Issue>, decision: Decision) returns (lists: seq<seq<nat>>)
    requires IsDecision(issues, decision)
    ensures ShowsAll(issues, decision, lists)
  {
    var comps: seq<seq<Slot>> :| Decides(issues, comps, decision);
    lists := seq(|comps|, k requires 0 <= k < |comps| => Positions(comps[k]));
    forall k | 0 <= k < |lists| ensures Shows(issues, decision, k, lists[k]) {
      DescribeShows(issues, comps, decision, k);
    }
    forall k, l | 0 <= k < l < |lists|
      ensures lists[k] != [] && lists[l] != [] && Before(issues, lists[k][0], lists[l][0])
    {
      HeadsInOrder(issues, comps, k, l);
    }
    forall i: nat | MayRun(issues, i) ensures exists k :: 0 <= k < |lists| && i in lists[k] {
      var k := RunsIn(issues, comps, i);
      assert lists[k] == Positions(comps[k]);
    }
  }

  lemma RunsIn(issues: seq<Issue>, comps: seq<seq<Slot>>, i: nat) returns (k: nat)
    requires AreComponents(issues, Repositories(issues), comps) && MayRun(issues, i)
    ensures k < |comps| && i in Positions(comps[k])
  {
    MayRunExact(issues, i);
    assert issues[i].repository in Repositories(issues);
    assert Listed(issues, comps, i);
    k :| 0 <= k < |comps| && SlotOf(issues, i) in comps[k];
    var a :| 0 <= a < |comps[k]| && comps[k][a] == SlotOf(issues, i);
    assert Positions(comps[k])[a] == i;
  }

  lemma HeadsInOrder(issues: seq<Issue>, comps: seq<seq<Slot>>, k: nat, l: nat)
    requires AreComponents(issues, Repositories(issues), comps) && k < l < |comps|
    ensures comps[k] != [] && comps[l] != [] && Before(issues, comps[k][0].pos, comps[l][0].pos)
  {
    assert IsComponent(issues, comps[k]) && IsComponent(issues, comps[l]);
    assert GroupLe(comps[k], comps[l]);
  }

  /** An issue that may run, named by its repository, number and subject. */
  ghost predicate MayTake(issues: seq<Issue>, l: Lane) {
    exists i: nat :: MayRun(issues, i) && l == Lane(issues[i].repository, issues[i].number, issues[i].subject)
  }

  ghost predicate InOrder(a: Lane, b: Lane) {
    if a.repository == b.repository then a.number <= b.number else StrLe(a.repository, b.repository)
  }

  ghost function Runnable(issues: seq<Issue>): set<nat> {
    set i: nat | i < |issues| && MayRun(issues, i)
  }

  /** The frontier names each issue that may run, as many as there are, by repository and number. */
  lemma FrontierOrder(issues: seq<Issue>, decision: Decision) returns (lanes: seq<Lane>)
    requires IsDecision(issues, decision)
    ensures |decision.frontier| == |lanes| == |Runnable(issues)|
    ensures forall k :: 0 <= k < |lanes| ==> decision.frontier[k] == lanes[k].subject
    ensures forall k, l :: 0 <= k < l < |lanes| ==> InOrder(lanes[k], lanes[l])
    ensures forall l :: l in lanes <==> MayTake(issues, l)
  {
    lanes := FrontierExact(issues, decision);
    forall i | 0 <= i < |issues| ensures MayRun(issues, i) <==> Eligible(issues, i) { MayRunExact(issues, i); }
    assert Runnable(issues) == EligiblePositions(issues);
    forall k, l | 0 <= k < l < |lanes| ensures InOrder(lanes[k], lanes[l]) { assert LaneLe(lanes[k], lanes[l]); }
    forall l ensures l in lanes <==> MayTake(issues, l) { EligibleLane(issues, l); }
  }

  lemma EligibleLane(issues: seq<Issue>, l: Lane)
    ensures IsEligibleLane(issues, l) <==> MayTake(issues, l)
  {
    if IsEligibleLane(issues, l) {
      var i: nat :| i < |issues| && Eligible(issues, i) && l == LaneOf(issues[i]);
      MayRunExact(issues, i);
    }
    if MayTake(issues, l) {
      var i: nat :| MayRun(issues, i) && l == Lane(issues[i].repository, issues[i].number, issues[i].subject);
      MayRunExact(issues, i);
    }
  }
}
