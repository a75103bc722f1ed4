/** What the scheduler's decision promises (schedule_domain.py:32-84), proved of every decision it can return. */
module ScheduleTheorems {
  import opened Ordering
  import opened Schedule

  // ----- winners are exact and maximal

  /** w is the lowest-numbered eligible issue of its component. */
  ghost predicate IsLeast(issues: seq<Issue>, w: nat) {
    && w < |issues| && Eligible(issues, w)
    && forall i: nat ::
       i < |issues| && Eligible(issues, i) && SameComponent(issues, w, i) ==> issues[w].number <= issues[i].number
  }

  lemma ComponentRefl(issues: seq<Issue>, i: nat)
    requires i < |issues|
    ensures SameComponent(issues, i, i)
  {
    ConnectedRefl(LinksOf(issues, issues[i].repository), issues[i].subject);
  }

  lemma HeadIsLeast(issues: seq<Issue>, g: seq<Slot>)
    requires IsComponent(issues, g)
    ensures IsLeast(issues, g[0].pos)
  {
    var w := g[0].pos;
    assert g[0] in g;
    forall i: nat | i < |issues| && Eligible(issues, i) && SameComponent(issues, w, i)
      ensures issues[w].number <= issues[i].number
    {
      assert SlotAt(issues, SlotOf(issues, i));
      assert SlotOf(issues, i) in g;
      var a :| 0 <= a < |g| && g[a] == SlotOf(issues, i);
      if a > 0 { assert SlotLe(g[0], g[a]); }
    }
  }

  /** w is in the component of issue i. */
  ghost predicate Joins(issues: seq<Issue>, w: nat, i: nat) {
    w < |issues| && i < |issues| && SameComponent(issues, w, i)
  }

  /** Issue w is winner k: the lowest-numbered eligible issue of a component without a claimed member, in a
      repository without a malformed claim. */
  ghost predicate IsWinner(issues: seq<Issue>, decision: Decision, w: nat, k: nat) {
    && IsLeast(issues, w) && k < |decision.winners| && decision.winners[k] == issues[w].subject
    && (forall j: nat :: j < |issues| && issues[j].claimed ==> !Joins(issues, j, w))
    && !Poisoned(issues, issues[w].repository)
  }

  /** The winners are exactly one per component that has an eligible issue. */
  lemma WinnersExact(issues: seq<Issue>, decision: Decision) returns (heads: seq<nat>)
    requires IsDecision(issues, decision)
    ensures |heads| == |decision.winners| && forall k :: 0 <= k < |heads| ==> IsWinner(issues, decision, heads[k], k)
    ensures forall i: nat ::
            i < |issues| && Eligible(issues, i) ==> exists k :: 0 <= k < |heads| && Joins(issues, heads[k], i)
    ensures forall i, k, l ::
            0 <= k < |heads| && 0 <= l < |heads| && Joins(issues, heads[k], i) && Joins(issues, heads[l], i) ==> k == l
  {
    var comps: seq<seq<Slot>> :| Decides(issues, comps, decision);
    heads := Heads(comps);
    forall k | 0 <= k < |heads| ensures IsWinner(issues, decision, heads[k], k) {
      HeadIsLeast(issues, comps[k]);
      assert comps[k][0] in comps[k];
    }
    forall i: nat | i < |issues| && Eligible(issues, i)
      ensures exists k :: 0 <= k < |heads| && Joins(issues, heads[k], i) {
      HeadOf(issues, comps, i);
    }
    forall i, k, l | 0 <= k < |heads| && 0 <= l < |heads| && Joins(issues, heads[k], i) && Joins(issues, heads[l], i)
      ensures k == l {
      HeadsMeet(issues, heads[k], heads[l], i);
    }
  }

  lemma HeadOf(issues: seq<Issue>, comps: seq<seq<Slot>>, i: nat)
    requires AreComponents(issues, Repositories(issues), comps) && i < |issues| && Eligible(issues, i)
    ensures exists k :: 0 <= k < |comps| && Joins(issues, Heads(comps)[k], i)
  {
    assert Listed(issues, comps, i);
    var k :| 0 <= k < |comps| && SlotOf(issues, i) in comps[k];
    assert Joins(issues, Heads(comps)[k], i);
  }

  lemma HeadsMeet(issues: seq<Issue>, h: nat, g: nat, i: nat)
    requires h < |issues| && g < |issues| && i < |issues| && SameComponent(issues, h, i) && SameComponent(issues, g, i)
    ensures SameComponent(issues, h, g) && SameComponent(issues, g, h)
  {
    ComponentSym(issues, g, i);
    ComponentTrans(issues, h, i, g);
    ComponentSym(issues, h, g);
  }

  ghost predicate Independent(issues: seq<Issue>, lanes: set<nat>) {
    && (forall i :: i in lanes ==> i < |issues| && Eligible(issues, i))
    && forall i, j :: i in lanes && j in lanes && i != j ==> !SameComponent(issues, i, j)
  }

  /** No set of eligible, pairwise unconnected issues is larger than max_useful_workers. */
  lemma WorkersBoundIndependentLanes(issues: seq<Issue>, decision: Decision, lanes: set<nat>)
    requires IsDecision(issues, decision) && Independent(issues, lanes)
    ensures |lanes| <= decision.maxUsefulWorkers
  {
    var comps: seq<seq<Slot>> :| Decides(issues, comps, decision);
    forall i | i in lanes ensures Listed(issues, comps, i) {
      assert issues[i].repository in Repositories(issues);
    }
    OnePerComponent(issues, comps, lanes);
  }

  lemma AtMostOneInComponent(issues: seq<Issue>, g: seq<Slot>, lanes: set<nat>)
    requires IsComponent(issues, g) && Independent(issues, lanes)
    requires forall i :: i in lanes ==> SlotOf(issues, i) in g
    ensures |lanes| <= 1
  {
    if i :| i in lanes {
      forall j | j in lanes ensures j == i {
        assert SlotOf(issues, i) in g && SlotOf(issues, j) in g;
        ComponentSym(issues, g[0].pos, i);
        ComponentTrans(issues, i, g[0].pos, j);
      }
      assert lanes == {i};
    }
  }

  lemma DropLastList(issues: seq<Issue>, comps: seq<seq<Slot>>, i: nat)
    requires comps != [] && i < |issues| && Listed(issues, comps, i) && SlotOf(issues, i) !in comps[|comps| - 1]
    ensures Listed(issues, comps[..|comps| - 1], i)
  {
    var k :| 0 <= k < |comps| && SlotOf(issues, i) in comps[k];
    assert comps[..|comps| - 1][k] == comps[k];
  }

  ghost predicate AllIn(issues: seq<Issue>, comps: seq<seq<Slot>>, lanes: set<nat>) {
    forall i :: i in lanes ==> i < |issues| && Listed(issues, comps, i)
  }

  lemma SetLastAside(issues: seq<Issue>, comps: seq<seq<Slot>>, lanes: set<nat>) returns (rest: set<nat>)
    requires comps != [] && Independent(issues, lanes) && AllIn(issues, comps, lanes)
    requires IsComponent(issues, comps[|comps| - 1])
    ensures Independent(issues, rest) && AllIn(issues, comps[..|comps| - 1], rest) && |lanes| <= |rest| + 1
  {
    var g := comps[|comps| - 1];
    var here := set i | i in lanes && SlotOf(issues, i) in g;
    rest := lanes - here;
    assert lanes == rest + here;
    AtMostOneInComponent(issues, g, here);
    forall i | i in rest ensures Listed(issues, comps[..|comps| - 1], i) {
      DropLastList(issues, comps, i);
    }
  }

  lemma {:induction false} OnePerComponent(issues: seq<Issue>, comps: seq<seq<Slot>>, lanes: set<nat>)
    requires Independent(issues, lanes) && AllIn(issues, comps, lanes)
    requires forall k :: 0 <= k < |comps| ==> IsComponent(issues, comps[k])
    ensures |lanes| <= |comps|
  {
    if comps == [] {
      assert lanes == {};
    } else {
      var rest := SetLastAside(issues, comps, lanes);
      OnePerComponent(issues, comps[..|comps| - 1], rest);
    }
  }

  /** The winners themselves are such a set, so max_useful_workers is attained. */
  lemma WorkersAreAttained(issues: seq<Issue>, decision: Decision) returns (lanes: set<nat>)
    requires IsDecision(issues, decision)
    ensures Independent(issues, lanes) && |lanes| == decision.maxUsefulWorkers
  {
    var comps: seq<seq<Slot>> :| Decides(issues, comps, decision);
    lanes := Elements(Heads(comps));
    forall k | 0 <= k < |comps| ensures Eligible(issues, comps[k][0].pos) {
      assert comps[k][0] in comps[k];
    }
    forall k, l | 0 <= k < |comps| && 0 <= l < |comps| && k != l
      ensures !SameComponent(issues, comps[k][0].pos, comps[l][0].pos)
    {
      if l < k && SameComponent(issues, comps[k][0].pos, comps[l][0].pos) {
        ComponentSym(issues, comps[k][0].pos, comps[l][0].pos);
      }
    }
    forall k, l | 0 <= k < l < |comps| ensures Heads(comps)[k] != Heads(comps)[l] {
      ComponentRefl(issues, comps[k][0].pos);
    }
    DistinctCount(Heads(comps));
  }

  function Heads(comps: seq<seq<Slot>>): (r: seq<nat>)
    requires forall k :: 0 <= k < |comps| ==> comps[k] != []
  {
    seq(|comps|, k requires 0 <= k < |comps| => comps[k][0].pos)
  }

  // ----- the decision does not depend on input order

  ghost predicate SameIssue(a: Issue, b: Issue) {
    a.(dependencies := b.dependencies) == b && Elements(a.dependencies) == Elements(b.dependencies)
  }

  ghost predicate Matched(issue: Issue, issues: seq<Issue>) {
    exists j :: 0 <= j < |issues| && SameIssue(issue, issues[j])
  }

  /** In these repositories the two snapshots hold the same issues, in any order, dependencies in any order. */
  ghost predicate SameSnapshot(s: seq<Issue>, t: seq<Issue>, repos: set<string>) {
    && (forall i {:trigger Matched(s[i], t)} :: 0 <= i < |s| && s[i].repository in repos ==> Matched(s[i], t))
    && (forall j {:trigger Matched(t[j], s)} :: 0 <= j < |t| && t[j].repository in repos ==> Matched(t[j], s))
  }

  /** The provider numbers the issues of one repository uniquely. */
  ghost predicate WellNumbered(issues: seq<Issue>) {
    forall i, j ::
      0 <= i < j < |issues| && issues[i].repository == issues[j].repository ==> issues[i].number != issues[j].number
  }

  lemma NamedCarries(s: seq<Issue>, t: seq<Issue>, repo: string, d: string)
    requires SameSnapshot(s, t, {repo}) && Named(s, repo, d)
    ensures Named(t, repo, d)
  {
    var n :| 0 <= n < |s| && s[n].repository == repo && s[n].subject == d;
    assert Matched(s[n], t);
  }

  lemma LinksWithin(s: seq<Issue>, t: seq<Issue>, repo: string)
    requires SameSnapshot(s, t, {repo})
    ensures LinksOf(s, repo) <= LinksOf(t, repo)
  {
    forall i, d | 0 <= i < |s| && s[i].repository == repo && d in s[i].dependencies && Named(s, repo, d)
      ensures (s[i].subject, d) in LinksOf(t, repo)
    {
      NamedCarries(s, t, repo, d);
      assert Matched(s[i], t);
      var j :| 0 <= j < |t| && SameIssue(s[i], t[j]);
      assert d in Elements(s[i].dependencies);
      assert d in t[j].dependencies;
    }
  }

  lemma PoisonCarries(s: seq<Issue>, t: seq<Issue>, repo: string)
    requires SameSnapshot(s, t, {repo}) && Poisoned(t, repo)
    ensures Poisoned(s, repo)
  {
    var n :| 0 <= n < |t| && t[n].repository == repo && t[n].claimed && t[n].malformed;
    assert Matched(t[n], s);
  }

  lemma HoldCarries(s: seq<Issue>, t: seq<Issue>, repo: string, i: nat, j: nat)
    requires SameSnapshot(s, t, {repo}) && LinksOf(s, repo) == LinksOf(t, repo)
    requires i < |s| && j < |t| && s[i].repository == t[j].repository == repo && s[i].subject == t[j].subject
    requires Held(t, j)
    ensures Held(s, i)
  {
    var n: nat :| n < |t| && t[n].claimed && SameComponent(t, n, j);
    assert Matched(t[n], s);
    var m :| 0 <= m < |s| && SameIssue(t[n], s[m]);
    assert SameComponent(s, m, i);
  }

  /** Corresponding issues of agreeing snapshots are eligible alike. */
  lemma EligibleCarries(s: seq<Issue>, t: seq<Issue>, repo: string, i: nat, j: nat)
    requires SameSnapshot(s, t, {repo}) && LinksOf(s, repo) == LinksOf(t, repo)
    requires i < |s| && j < |t| && s[i].repository == repo && SameIssue(s[i], t[j]) && Eligible(s, i)
    ensures Eligible(t, j)
  {
    if Poisoned(t, repo) { PoisonCarries(s, t, repo); }
    if Held(t, j) { HoldCarries(s, t, repo, i, j); }
  }

  lemma LinksAgree(s: seq<Issue>, t: seq<Issue>, repo: string)
    requires SameSnapshot(s, t, {repo})
    ensures LinksOf(s, repo) == LinksOf(t, repo)
  {
    LinksWithin(s, t, repo);
    LinksWithin(t, s, repo);
  }

  lemma Twin(s: seq<Issue>, t: seq<Issue>, repo: string, i: nat) returns (j: nat)
    requires SameSnapshot(s, t, {repo}) && i < |s| && s[i].repository == repo
    ensures j < |t| && SameIssue(s[i], t[j])
  {
    assert Matched(s[i], t);
    j :| 0 <= j < |t| && SameIssue(s[i], t[j]);
  }

  lemma Counterpart(s: seq<Issue>, t: seq<Issue>, repo: string, i: nat) returns (j: nat)
    requires SameSnapshot(s, t, {repo}) && i < |s| && s[i].repository == repo && Eligible(s, i)
    ensures j < |t| && SameIssue(s[i], t[j]) && Eligible(t, j) && LaneOf(t[j]) == LaneOf(s[i])
    ensures LinksOf(s, repo) == LinksOf(t, repo)
  {
    LinksAgree(s, t, repo);
    j := Twin(s, t, repo, i);
    EligibleCarries(s, t, repo, i, j);
  }

  lemma Narrow(s: seq<Issue>, t: seq<Issue>, repos: set<string>, repo: string)
    requires SameSnapshot(s, t, repos) && repo in repos
    ensures SameSnapshot(s, t, {repo})
  {
  }

  /** The least issue of a component is its winner in any snapshot that agrees on the repository. */
  lemma LeastWins(s: seq<Issue>, w: nat, t: seq<Issue>, repos: set<string>, comps: seq<seq<Slot>>) returns (k: nat)
    requires IsLeast(s, w) && WellNumbered(s) && s[w].repository in repos
    requires SameSnapshot(s, t, {s[w].repository}) && AreComponents(t, repos, comps)
    ensures k < |comps| && comps[k][0].lane == LaneOf(s[w])
  {
    var repo := s[w].repository;
    var v := Counterpart(s, t, repo, w);
    assert Listed(t, comps, v);
    k :| 0 <= k < |comps| && SlotOf(t, v) in comps[k];
    HeadIsLeast(t, comps[k]);
    var h := comps[k][0].pos;
    assert comps[k][0] in comps[k];
    ComponentSym(t, h, v);
    var u := Counterpart(t, s, repo, h);
    assert SameComponent(s, w, u);
    assert s[w].number == s[u].number;
  }

  ghost predicate Strict(lanes: seq<Lane>) {
    forall a, b :: 0 <= a < b < |lanes| ==> LaneLe(lanes[a], lanes[b]) && !LaneLe(lanes[b], lanes[a])
  }

  /** A strictly sorted list is determined by what it contains. */
  lemma {:induction false} StrictUnique(a: seq<Lane>, b: seq<Lane>)
    requires Strict(a) && Strict(b) && forall l :: l in a <==> l in b
    ensures a == b
  {
    assert (a != [] ==> a[0] in a) && (b != [] ==> b[0] in b);
    if a == [] {
    } else {
      assert a[0] in b && (b == [] || b[0] in a);
      var i :| 0 <= i < |b| && b[i] == a[0];
      var j :| 0 <= j < |a| && a[j] == b[0];
      assert i == 0 && j == 0;
      forall l ensures l in a[1..] <==> l in b[1..] {
        if l in a[1..] { assert l in a && l != a[0]; }
        if l in b[1..] { assert l in b && l != b[0]; }
        assert a == [a[0]] + a[1..] && b == [b[0]] + b[1..];
      }
      StrictUnique(a[1..], b[1..]);
    }
  }

  /** The lanes of one list of slots. */
  function LaneList(g: seq<Slot>): (r: seq<Lane>)
    ensures |r| == |g| && forall a :: 0 <= a < |g| ==> r[a] == g[a].lane
  {
    seq(|g|, a requires 0 <= a < |g| => g[a].lane)
  }

  lemma SortedSlotsAreStrict(issues: seq<Issue>, g: seq<Slot>)
    requires WellNumbered(issues) && SortedBy(g, SlotLe)
    requires forall a :: 0 <= a < |g| ==> SlotAt(issues, g[a])
    requires forall a, b :: 0 <= a < b < |g| ==> g[a].pos != g[b].pos
    ensures Strict(LaneList(g))
  {
    forall a, b | 0 <= a < b < |g| ensures LaneLe(g[a].lane, g[b].lane) && !LaneLe(g[b].lane, g[a].lane) {
      assert SlotLe(g[a], g[b]);
      StrLeTotal(g[a].lane.repository, g[b].lane.repository);
    }
  }

  lemma ComponentIsStrict(issues: seq<Issue>, g: seq<Slot>)
    requires WellNumbered(issues) && IsComponent(issues, g)
    ensures Strict(LaneList(g))
  {
    forall a | 0 <= a < |g| ensures SlotAt(issues, g[a]) { assert g[a] in g; }
    SortedSlotsAreStrict(issues, g);
  }

  function HeadSlots(comps: seq<seq<Slot>>): seq<Slot>
    requires forall k :: 0 <= k < |comps| ==> comps[k] != []
  {
    seq(|comps|, k requires 0 <= k < |comps| => comps[k][0])
  }

  lemma HeadsAreStrict(issues: seq<Issue>, repos: set<string>, comps: seq<seq<Slot>>)
    requires WellNumbered(issues) && AreComponents(issues, repos, comps)
    ensures Strict(LaneList(HeadSlots(comps)))
  {
    var g: seq<Slot> := HeadSlots(comps);
    forall a, b | 0 <= a < b < |g| ensures g[a].pos != g[b].pos && SlotLe(g[a], g[b]) {
      ComponentRefl(issues, g[a].pos);
      assert GroupLe(comps[a], comps[b]);
    }
    SortedSlotsAreStrict(issues, g);
  }

  /** Heads of one decision are heads of the other. */
  lemma HeadsCarry(s: seq<Issue>, t: seq<Issue>, repos: set<string>, c: seq<seq<Slot>>, d: seq<seq<Slot>>)
    requires WellNumbered(s) && SameSnapshot(s, t, repos)
    requires AreComponents(s, repos, c) && AreComponents(t, repos, d)
    ensures forall l :: l in LaneList(HeadSlots(c)) ==> l in LaneList(HeadSlots(d))
  {
    forall k | 0 <= k < |c| ensures c[k][0].lane in LaneList(HeadSlots(d)) {
      HeadIsLeast(s, c[k]);
      Narrow(s, t, repos, c[k][0].lane.repository);
      var n := LeastWins(s, c[k][0].pos, t, repos, d);
      assert LaneList(HeadSlots(d))[n] == c[k][0].lane;
    }
  }

  lemma MemberCarries(s: seq<Issue>, t: seq<Issue>, g: seq<Slot>, h: seq<Slot>, x: Slot)
    requires WellNumbered(t) && IsComponent(s, g) && IsComponent(t, h) && g[0].lane == h[0].lane && x in g
    requires SameSnapshot(s, t, {g[0].lane.repository})
    ensures x.lane in LaneList(h)
  {
    var repo := g[0].lane.repository;
    assert g[0] in g && h[0] in h;
    var j := Counterpart(s, t, repo, x.pos);
    var m := Counterpart(s, t, repo, g[0].pos);
    assert m == h[0].pos;
    assert SameComponent(t, m, j);
    assert SlotOf(t, j) in h;
    var b :| 0 <= b < |h| && h[b] == SlotOf(t, j);
    assert LaneList(h)[b] == x.lane;
  }

  /** Members of one component are members of the other component with the same head lane. */
  lemma MembersCarry(s: seq<Issue>, t: seq<Issue>, repos: set<string>, g: seq<Slot>, h: seq<Slot>)
    requires WellNumbered(t) && SameSnapshot(s, t, repos)
    requires IsComponent(s, g) && IsComponent(t, h) && g[0].lane == h[0].lane && g[0].lane.repository in repos
    ensures forall l :: l in LaneList(g) ==> l in LaneList(h)
  {
    Narrow(s, t, repos, g[0].lane.repository);
    forall a | 0 <= a < |g| ensures g[a].lane in LaneList(h) {
      MemberCarries(s, t, g, h, g[a]);
    }
  }

  lemma DescribedAlike(s: seq<Issue>, t: seq<Issue>, repos: set<string>, c: seq<seq<Slot>>, d: seq<seq<Slot>>)
    requires WellNumbered(s) && WellNumbered(t) && SameSnapshot(s, t, repos)
    requires AreComponents(s, repos, c) && AreComponents(t, repos, d)
    ensures Describe(LanesOf(c)) == Describe(LanesOf(d))
  {
    assert SameSnapshot(t, s, repos);
    HeadsCarry(s, t, repos, c, d);
    HeadsCarry(t, s, repos, d, c);
    HeadsAreStrict(s, repos, c);
    HeadsAreStrict(t, repos, d);
    StrictUnique(LaneList(HeadSlots(c)), LaneList(HeadSlots(d)));
    forall k | 0 <= k < |c| ensures k < |d| && LaneList(c[k]) == LaneList(d[k]) {
      assert LaneList(HeadSlots(c))[k] == LaneList(HeadSlots(d))[k];
      MembersCarry(s, t, repos, c[k], d[k]);
      MembersCarry(t, s, repos, d[k], c[k]);
      ComponentIsStrict(s, c[k]);
      ComponentIsStrict(t, d[k]);
      StrictUnique(LaneList(c[k]), LaneList(d[k]));
    }
    assert LanesOf(c) == LanesOf(d);
  }

  lemma RepositoriesWithin(s: seq<Issue>, t: seq<Issue>, repos: set<string>)
    requires SameSnapshot(s, t, repos) && Repositories(s) <= repos
    ensures Repositories(s) <= Repositories(t)
  {
    forall i | 0 <= i < |s| ensures s[i].repository in Repositories(t) {
      assert s[i].repository in Repositories(s) && Matched(s[i], t);
    }
  }

  /** Permuting the input issues, and the entries of each dependency tuple, gives the identical decision. */
  lemma OrderIndependent(s: seq<Issue>, t: seq<Issue>, a: Decision, b: Decision)
    requires WellNumbered(s) && WellNumbered(t) && SameSnapshot(s, t, Repositories(s) + Repositories(t))
    requires IsDecision(s, a) && IsDecision(t, b)
    ensures a == b
  {
    var repos := Repositories(s) + Repositories(t);
    assert SameSnapshot(t, s, repos);
    RepositoriesWithin(s, t, repos);
    RepositoriesWithin(t, s, repos);
    assert Repositories(s) == Repositories(t);
    var c :| Decides(s, c, a);
    var d :| Decides(t, d, b);
    DescribedAlike(s, t, Repositories(s), c, d);
  }

  // ----- winners do not interfere

  /** The snapshot once issue p holds a live claim. */
  function Claim(issues: seq<Issue>, p: nat): (r: seq<Issue>)
    requires p < |issues|
    ensures |r| == |issues|
    ensures forall i :: 0 <= i < |issues| ==> r[i] == issues[i].(claimed := issues[i].claimed || i == p)
  {
    issues[p := issues[p].(claimed := true)]
  }

  lemma ClaimKeepsLinks(issues: seq<Issue>, p: nat, repo: string)
    requires p < |issues|
    ensures LinksOf(Claim(issues, p), repo) == LinksOf(issues, repo)
  {
    forall i | 0 <= i < |issues| ensures SameEdges(Claim(issues, p)[i], issues[i]) {}
    SameEdgesSameLinks(Claim(issues, p), issues, repo);
  }

  lemma SameEdgesSameLinks(a: seq<Issue>, b: seq<Issue>, repo: string)
    requires |a| == |b| && forall i :: 0 <= i < |a| ==> SameEdges(a[i], b[i])
    ensures LinksOf(a, repo) == LinksOf(b, repo)
  {
    forall d ensures Named(a, repo, d) <==> Named(b, repo, d) {
      forall i | 0 <= i < |a| ensures SameEdges(a[i], b[i]) {}
    }
    forall i | 0 <= i < |a| ensures SameEdges(a[i], b[i]) {}
  }

  predicate SameEdges(a: Issue, b: Issue) {
    a.subject == b.subject && a.repository == b.repository && a.dependencies == b.dependencies
  }

  /** Claiming p takes exactly the component of p out of the running, and the whole repository of p if p is
      malformed. */
  lemma ClaimRemovesComponent(issues: seq<Issue>, p: nat, i: nat)
    requires p < |issues| && i < |issues|
    ensures forall j: nat :: j < |issues| ==> (SameComponent(Claim(issues, p), i, j) <==> SameComponent(issues, i, j))
    ensures Eligible(Claim(issues, p), i) <==>
              Eligible(issues, i) && !SameComponent(issues, p, i) && !ClosedBy(issues, p, i)
  {
    var after := Claim(issues, p);
    ClaimKeepsLinks(issues, p, issues[i].repository);
    PoisonAfterClaim(issues, p, issues[i].repository);
    HoldAfterClaim(issues, p, i);
  }

  /** A malformed claim on p would close the repository of issue i. */
  predicate ClosedBy(issues: seq<Issue>, p: nat, i: nat)
    requires p < |issues| && i < |issues|
  {
    issues[p].malformed && issues[p].repository == issues[i].repository
  }

  lemma PoisonAfterClaim(issues: seq<Issue>, p: nat, repo: string)
    requires p < |issues|
    ensures Poisoned(Claim(issues, p), repo)
            <==> Poisoned(issues, repo) || (issues[p].malformed && issues[p].repository == repo)
  {
    var after := Claim(issues, p);
    if Poisoned(issues, repo) {
      var n :| 0 <= n < |issues| && issues[n].repository == repo && issues[n].claimed && issues[n].malformed;
      assert after[n].repository == repo && after[n].claimed && after[n].malformed;
    }
    assert after[p].claimed;
  }

  lemma HoldAfterClaim(issues: seq<Issue>, p: nat, i: nat)
    requires p < |issues| && i < |issues|
    ensures Held(Claim(issues, p), i) <==> Held(issues, i) || SameComponent(issues, p, i)
  {
    var after := Claim(issues, p);
    ClaimKeepsLinks(issues, p, issues[p].repository);
    assert after[p].claimed && (SameComponent(after, p, i) <==> SameComponent(issues, p, i));
    if Held(issues, i) {
      var n: nat :| n < |issues| && issues[n].claimed && SameComponent(issues, n, i);
      ClaimKeepsLinks(issues, p, issues[n].repository);
      assert after[n].claimed && SameComponent(after, n, i);
    }
    if Held(after, i) {
      var n: nat :| n < |issues| && after[n].claimed && SameComponent(after, n, i);
      ClaimKeepsLinks(issues, p, issues[n].repository);
      assert SameComponent(issues, n, i);
    }
  }

  /** A component that a claim on p leaves alone. */
  ghost predicate Unaffected(issues: seq<Issue>, p: nat, g: seq<Slot>)
    requires p < |issues|
  {
    g != [] && g[0].pos < |issues| && !SameComponent(issues, p, g[0].pos) && !ClosedBy(issues, p, g[0].pos)
  }

  ghost function Stays(issues: seq<Issue>, p: nat): seq<Slot> -> bool
    requires p < |issues|
  {
    (g: seq<Slot>) => Unaffected(issues, p, g)
  }

  ghost function Surviving(issues: seq<Issue>, comps: seq<seq<Slot>>, p: nat): seq<seq<Slot>>
    requires p < |issues|
  {
    Passing(comps, Stays(issues, p))
  }

  /** Survivor m is the unaffected component at place at[m]. */
  ghost predicate SurvivesAt(issues: seq<Issue>, comps: seq<seq<Slot>>, p: nat, at: seq<nat>, m: nat)
    requires p < |issues| && m < |at| == |Surviving(issues, comps, p)|
  {
    at[m] < |comps| && Surviving(issues, comps, p)[m] == comps[at[m]] && Unaffected(issues, p, comps[at[m]])
  }

  ghost predicate Survive(issues: seq<Issue>, comps: seq<seq<Slot>>, p: nat, at: seq<nat>)
    requires p < |issues|
  {
    && |at| == |Surviving(issues, comps, p)|
    && (forall m {:trigger SurvivesAt(issues, comps, p, at, m)} ::
          0 <= m < |at| ==> SurvivesAt(issues, comps, p, at, m))
    && forall m, n :: 0 <= m < n < |at| ==> at[m] < at[n]
  }

  /** The survivors are the unaffected components, in their order. */
  lemma SurvivingExact(issues: seq<Issue>, comps: seq<seq<Slot>>, p: nat) returns (at: seq<nat>)
    requires p < |issues|
    ensures Survive(issues, comps, p, at)
    ensures forall k: nat :: k < |comps| && Unaffected(issues, p, comps[k]) ==> k in at
  {
    var stays := Stays(issues, p);
    at := PassingExact(comps, stays);
    forall m | 0 <= m < |at| ensures SurvivesAt(issues, comps, p, at, m) {
      assert PlacedAt(comps, stays, at, m);
    }
    forall k: nat | k < |comps| && Unaffected(issues, p, comps[k]) ensures k in at {
      assert stays(comps[k]);
    }
  }

  lemma ClaimKeepsOtherComponent(issues: seq<Issue>, p: nat, g: seq<Slot>)
    requires p < |issues| && IsComponent(issues, g) && Unaffected(issues, p, g)
    ensures IsComponent(Claim(issues, p), g)
  {
    var after, h := Claim(issues, p), g[0].pos;
    assert g[0] in g;
    forall s ensures s in g <==> SlotAt(after, s) && Eligible(after, s.pos) && SameComponent(after, h, s.pos) {
      if SlotAt(issues, s) {
        ClaimRemovesComponent(issues, p, s.pos);
        ClaimRemovesComponent(issues, p, h);
        if SameComponent(issues, h, s.pos) && SameComponent(issues, p, s.pos) {
          HeadsMeet(issues, p, h, s.pos);
        }
      }
    }
  }

  lemma ClaimedLeavesTheRunning(issues: seq<Issue>, repos: set<string>, comps: seq<seq<Slot>>, p: nat, i: nat)
    requires AreSeparate(issues, repos, comps) && AllListed(issues, repos, comps) && p < |issues| && i < |issues|
    requires issues[i].repository in repos && Eligible(Claim(issues, p), i)
    ensures Listed(Claim(issues, p), Surviving(issues, comps, p), i)
  {
    ClaimRemovesComponent(issues, p, i);
    assert Listed(issues, comps, i);
    var k: nat :| k < |comps| && SlotOf(issues, i) in comps[k];
    var h := comps[k][0].pos;
    assert comps[k][0] in comps[k] && SameComponent(issues, h, i);
    if SameComponent(issues, p, h) { ComponentTrans(issues, p, h, i); }
    assert Unaffected(issues, p, comps[k]);
    var at := SurvivingExact(issues, comps, p);
    var m :| 0 <= m < |at| && at[m] == k;
    assert SurvivesAt(issues, comps, p, at, m);
    assert SlotOf(Claim(issues, p), i) in Surviving(issues, comps, p)[m];
  }

  lemma SurvivorsStaySeparate(issues: seq<Issue>, repos: set<string>, comps: seq<seq<Slot>>, p: nat, at: seq<nat>)
    requires AreSeparate(issues, repos, comps) && p < |issues| && Survive(issues, comps, p, at)
    ensures AreSeparate(Claim(issues, p), repos, Surviving(issues, comps, p))
  {
    var after, rest := Claim(issues, p), Surviving(issues, comps, p);
    forall m | 0 <= m < |rest| ensures IsComponent(after, rest[m]) && rest[m][0].lane.repository in repos {
      assert SurvivesAt(issues, comps, p, at, m);
      ClaimKeepsOtherComponent(issues, p, comps[at[m]]);
    }
    forall m, n | 0 <= m < n < |rest| ensures !SameComponent(after, rest[m][0].pos, rest[n][0].pos) {
      assert SurvivesAt(issues, comps, p, at, m) && SurvivesAt(issues, comps, p, at, n);
      ClaimRemovesComponent(issues, p, rest[m][0].pos);
    }
  }

  /** Claiming any issue leaves every unaffected component in place, winner and all, and removes the others. */
  lemma WinnersDoNotInterfere(issues: seq<Issue>, repos: set<string>, comps: seq<seq<Slot>>, p: nat)
    requires AreComponents(issues, repos, comps) && p < |issues|
    ensures AreComponents(Claim(issues, p), repos, Surviving(issues, comps, p))
  {
    var after, rest := Claim(issues, p), Surviving(issues, comps, p);
    var at := SurvivingExact(issues, comps, p);
    SurvivorsStaySeparate(issues, repos, comps, p, at);
    forall i: nat | i < |after| && after[i].repository in repos && Eligible(after, i) ensures Listed(after, rest, i) {
      ClaimedLeavesTheRunning(issues, repos, comps, p, i);
    }
    forall m, n | 0 <= m < n < |rest| ensures GroupLe(rest[m], rest[n]) {
      assert SurvivesAt(issues, comps, p, at, m) && SurvivesAt(issues, comps, p, at, n);
    }
  }

  lemma OnlyItsOwnComponent(issues: seq<Issue>, repos: set<string>, comps: seq<seq<Slot>>, k: nat, n: nat)
    requires AreSeparate(issues, repos, comps) && k < |comps| && n < |comps| && !issues[comps[k][0].pos].malformed
    ensures Unaffected(issues, comps[k][0].pos, comps[n]) <==> n != k
  {
    var p := comps[k][0].pos;
    ComponentRefl(issues, p);
    if n < k && SameComponent(issues, p, comps[n][0].pos) { ComponentSym(issues, p, comps[n][0].pos); }
  }

  /** A claim on a well-formed winner leaves everything but its own component. */
  lemma WinnerSurvivors(issues: seq<Issue>, repos: set<string>, comps: seq<seq<Slot>>, k: nat)
    requires AreSeparate(issues, repos, comps) && k < |comps| && !issues[comps[k][0].pos].malformed
    ensures Surviving(issues, comps, comps[k][0].pos) == Without(comps, k)
  {
    forall n | 0 <= n < |comps| ensures Unaffected(issues, comps[k][0].pos, comps[n]) <==> n != k {
      OnlyItsOwnComponent(issues, repos, comps, k, n);
    }
    forall n | 0 <= n < |comps| ensures Stays(issues, comps[k][0].pos)(comps[n]) <==> n != k {}
    AllButOnePass(comps, Stays(issues, comps[k][0].pos), k);
  }

  lemma DescribeWithout(comps: seq<seq<Slot>>, k: nat)
    requires k < |comps| && forall m :: 0 <= m < |comps| ==> comps[m] != []
    ensures var d, e := Describe(LanesOf(comps)), Describe(LanesOf(Without(comps, k)));
            && e.components == Without(d.components, k) && e.winners == Without(d.winners, k)
            && e.maxUsefulWorkers == d.maxUsefulWorkers - 1
  {
    var rest := Without(comps, k);
    forall m | 0 <= m < |rest| ensures LanesOf(rest)[m] == Without(LanesOf(comps), k)[m] {}
    assert LanesOf(rest) == Without(LanesOf(comps), k);
  }

  /** So the decision recomputed after claiming any issue, its frontier included, describes exactly the
      unaffected components. */
  lemma DecisionAfterClaim(issues: seq<Issue>, comps: seq<seq<Slot>>, decision: Decision, p: nat, after: Decision)
    requires WellNumbered(issues) && Decides(issues, comps, decision) && p < |issues|
    requires IsDecision(Claim(issues, p), after)
    ensures Decides(Claim(issues, p), Surviving(issues, comps, p), after)
  {
    var claimed := Claim(issues, p);
    forall i | 0 <= i < |issues| ensures LaneOf(claimed[i]) == LaneOf(issues[i]) {}
    WellNumberedFollowsLanes(issues, claimed);
    assert Repositories(claimed) == Repositories(issues) by { RepositoriesFollowLanes(issues, claimed); }
    WinnersDoNotInterfere(issues, Repositories(issues), comps, p);
    SnapshotIsItself(claimed, Repositories(issues));
    var rest :| Decides(claimed, rest, after);
    DescribedAlike(claimed, claimed, Repositories(issues), Surviving(issues, comps, p), rest);
  }

  /** The components of the other repositories. */
  function Outside(comps: seq<seq<Slot>>, repo: string): (r: seq<seq<Slot>>)
    ensures forall k :: 0 <= k < |r| ==> r[k] != []
  {
    Passing(comps, Abroad(repo))
  }

  predicate IsOutside(g: seq<Slot>, repo: string) {
    g != [] && g[0].lane.repository != repo
  }

  function Abroad(repo: string): seq<Slot> -> bool {
    (g: seq<Slot>) => IsOutside(g, repo)
  }

  lemma MalformedAffects(issues: seq<Issue>, p: nat, g: seq<Slot>)
    requires p < |issues| && issues[p].malformed && IsComponent(issues, g)
    ensures Unaffected(issues, p, g) <==> IsOutside(g, issues[p].repository)
  {
    assert g[0] in g && SlotAt(issues, g[0]);
  }

  ghost predicate IsLessWinner(
    issues: seq<Issue>, comps: seq<seq<Slot>>, decision: Decision, k: nat, after: Decision)
    requires Decides(issues, comps, decision) && k < |comps|
  {
    if issues[comps[k][0].pos].malformed then
      after == Describe(LanesOf(Outside(comps, comps[k][0].lane.repository)))
    else
      && after == Describe(LanesOf(Without(comps, k)))
      && after.components == Without(decision.components, k) && after.winners == Without(decision.winners, k)
      && after.maxUsefulWorkers == decision.maxUsefulWorkers - 1
  }

  /** And after claiming a winner it is the old one less that component, winner and worker, or less every component
      of that repository if the winner is malformed. */
  lemma DecisionAfterWinner(issues: seq<Issue>, comps: seq<seq<Slot>>, decision: Decision, k: nat, after: Decision)
    requires WellNumbered(issues) && Decides(issues, comps, decision) && k < |comps|
    requires IsDecision(Claim(issues, comps[k][0].pos), after)
    ensures IsLessWinner(issues, comps, decision, k, after)
  {
    var p := comps[k][0].pos;
    DecisionAfterClaim(issues, comps, decision, p, after);
    if issues[p].malformed {
      assert comps[k][0] in comps[k] && SlotAt(issues, comps[k][0]);
      var repo := issues[p].repository;
      forall n | 0 <= n < |comps| ensures Stays(issues, p)(comps[n]) == IsOutside(comps[n], repo) {
        MalformedAffects(issues, p, comps[n]);
      }
      PassAlike(comps, Stays(issues, p), Abroad(repo));
    } else {
      WinnerSurvivors(issues, Repositories(issues), comps, k);
      DescribeWithout(comps, k);
    }
  }

  lemma RepositoriesFollowLanes(issues: seq<Issue>, after: seq<Issue>)
    requires |after| == |issues| && forall i :: 0 <= i < |issues| ==> LaneOf(after[i]) == LaneOf(issues[i])
    ensures Repositories(after) == Repositories(issues)
  {
    forall i | 0 <= i < |issues|
      ensures after[i].repository == issues[i].repository { assert LaneOf(after[i]) == LaneOf(issues[i]); }
  }

  lemma SnapshotIsItself(issues: seq<Issue>, repos: set<string>)
    ensures SameSnapshot(issues, issues, repos)
  {
    forall i | 0 <= i < |issues| ensures Matched(issues[i], issues) { assert SameIssue(issues[i], issues[i]); }
  }

  ghost predicate InRange(issues: seq<Issue>, ps: seq<nat>) {
    forall a :: 0 <= a < |ps| ==> ps[a] < |issues|
  }

  function ClaimEach(issues: seq<Issue>, ps: seq<nat>): (r: seq<Issue>)
    requires InRange(issues, ps)
    ensures |r| == |issues| && forall i :: 0 <= i < |issues| ==> LaneOf(r[i]) == LaneOf(issues[i])
    ensures forall i :: 0 <= i < |issues| ==> r[i] == issues[i].(claimed := issues[i].claimed || i in ps)
    decreases |ps|
  {
    if ps == [] then issues else ClaimEach(Claim(issues, ps[0]), ps[1..])
  }

  /** A claim on p leaves issue w in the running. */
  ghost predicate Elsewhere(issues: seq<Issue>, w: nat, p: nat)
    requires w < |issues|
  {
    p < |issues| && !ClosedBy(issues, p, w) && !SameComponent(issues, p, w)
  }

  lemma ClaimKeepsLeast(issues: seq<Issue>, p: nat, w: nat)
    requires IsLeast(issues, w) && Elsewhere(issues, w, p)
    ensures IsLeast(Claim(issues, p), w)
  {
    var after := Claim(issues, p);
    ClaimRemovesComponent(issues, p, w);
    forall i: nat | i < |after| && Eligible(after, i) && SameComponent(after, w, i)
      ensures after[w].number <= after[i].number
    {
      ClaimRemovesComponent(issues, p, i);
    }
  }

  lemma {:induction false} ClaimsKeepLeast(issues: seq<Issue>, ps: seq<nat>, w: nat)
    requires IsLeast(issues, w)
    requires forall a :: 0 <= a < |ps| ==> Elsewhere(issues, w, ps[a])
    ensures InRange(issues, ps) && IsLeast(ClaimEach(issues, ps), w)
    decreases |ps|
  {
    assert InRange(issues, ps) by {
      forall a | 0 <= a < |ps| ensures ps[a] < |issues| { assert Elsewhere(issues, w, ps[a]); }
    }
    if ps == [] {
    } else {
      assert Elsewhere(issues, w, ps[0]);
      var after := Claim(issues, ps[0]);
      ClaimKeepsLeast(issues, ps[0], w);
      forall a | 0 <= a < |ps[1..]| ensures Elsewhere(after, w, ps[1..][a]) {
        assert Elsewhere(issues, w, ps[a + 1]);
        ClaimRemovesComponent(issues, ps[0], ps[a + 1]);
      }
      ClaimsKeepLeast(after, ps[1..], w);
    }
  }

  lemma WellNumberedFollowsLanes(issues: seq<Issue>, after: seq<Issue>)
    requires WellNumbered(issues) && |after| == |issues|
    requires forall i :: 0 <= i < |issues| ==> LaneOf(after[i]) == LaneOf(issues[i])
    ensures WellNumbered(after)
  {
    forall i, j | 0 <= i < j < |after| && after[i].repository == after[j].repository
      ensures after[i].number != after[j].number {
      assert LaneOf(after[i]) == LaneOf(issues[i]) && LaneOf(after[j]) == LaneOf(issues[j]);
    }
  }

  lemma LeastIsNamedWinner(issues: seq<Issue>, after: seq<Issue>, w: nat, reread: seq<Issue>, recheck: Decision)
    requires WellNumbered(issues) && |after| == |issues| && IsLeast(after, w)
    requires forall i :: 0 <= i < |issues| ==> LaneOf(after[i]) == LaneOf(issues[i])
    requires SameSnapshot(after, reread, {issues[w].repository}) && IsDecision(reread, recheck)
    ensures issues[w].subject in recheck.winners
  {
    WellNumberedFollowsLanes(issues, after);
    assert LaneOf(after[w]) == LaneOf(issues[w]);
    assert Matched(after[w], reread);
    assert issues[w].repository in Repositories(reread);
    var comps: seq<seq<Slot>> :| Decides(reread, comps, recheck);
    var m := LeastWins(after, w, reread, Repositories(reread), comps);
    assert recheck.winners[m] == issues[w].subject;
  }

  /** The snapshot once these subjects hold live claims. */
  function Marked(issues: seq<Issue>, subjects: seq<string>): (r: seq<Issue>)
    ensures |r| == |issues|
    ensures forall i :: 0 <= i < |issues| ==> LaneOf(r[i]) == LaneOf(issues[i]) && SameEdges(r[i], issues[i])
    ensures forall i :: 0 <= i < |issues| ==>
              r[i] == issues[i].(claimed := issues[i].claimed || issues[i].subject in subjects)
  {
    seq(|issues|, i requires 0 <= i < |issues| =>
      if issues[i].subject in subjects then issues[i].(claimed := true) else issues[i])
  }

  /** A subject names one issue of the snapshot. */
  ghost predicate Identified(issues: seq<Issue>) {
    forall i, j :: 0 <= i < j < |issues| ==> issues[i].subject != issues[j].subject
  }

  lemma MarkedNext(issues: seq<Issue>, subjects: seq<string>, p: nat)
    requires Identified(issues) && p < |issues|
    ensures Marked(issues, subjects + [issues[p].subject]) == Claim(Marked(issues, subjects), p)
  {
    var a, b := Marked(issues, subjects + [issues[p].subject]), Claim(Marked(issues, subjects), p);
    forall i | 0 <= i < |issues| ensures a[i] == b[i] {
      if i != p { assert issues[i].subject != issues[p].subject; }
    }
  }

  lemma MarkedKeepsElsewhere(issues: seq<Issue>, subjects: seq<string>, w: nat, p: nat)
    requires w < |issues| && Elsewhere(issues, w, p)
    ensures Elsewhere(Marked(issues, subjects), w, p)
  {
    SameEdgesSameLinks(Marked(issues, subjects), issues, issues[p].repository);
  }

  ghost predicate NamesElsewhere(issues: seq<Issue>, w: nat, subject: string)
    requires w < |issues|
  {
    exists p: nat :: Elsewhere(issues, w, p) && issues[p].subject == subject
  }

  lemma {:induction false} MarkedKeepsLeast(issues: seq<Issue>, subjects: seq<string>, w: nat)
    requires Identified(issues) && IsLeast(issues, w)
    requires forall a :: 0 <= a < |subjects| ==> NamesElsewhere(issues, w, subjects[a])
    ensures IsLeast(Marked(issues, subjects), w)
  {
    if subjects == [] {
      assert Marked(issues, subjects) == issues;
    } else {
      var before, last := subjects[..|subjects| - 1], subjects[|subjects| - 1];
      assert subjects == before + [last];
      MarkedKeepsLeast(issues, before, w);
      assert NamesElsewhere(issues, w, last);
      var p: nat :| Elsewhere(issues, w, p) && issues[p].subject == last;
      MarkedKeepsElsewhere(issues, before, w, p);
      ClaimKeepsLeast(Marked(issues, before), p, w);
      MarkedNext(issues, before, p);
    }
  }

  /** The snapshot's malformed records are live claims that cannot be scheduled. */
  ghost predicate MalformedIsUnschedulable(issues: seq<Issue>) {
    forall i :: 0 <= i < |issues| && issues[i].malformed ==> !issues[i].schedulable
  }

  lemma OtherWinnerIsElsewhere(issues: seq<Issue>, decision: Decision, heads: seq<nat>, k: nat, subject: string)
    requires Identified(issues) && MalformedIsUnschedulable(issues)
    requires k < |heads| == |decision.winners| && heads[k] < |issues|
    requires forall l :: 0 <= l < |heads| ==> IsWinner(issues, decision, heads[l], l)
    requires forall i, l, m ::
             0 <= l < |heads| && 0 <= m < |heads| && Joins(issues, heads[l], i) && Joins(issues, heads[m], i) ==> l == m
    requires subject in decision.winners && subject != decision.winners[k]
    ensures NamesElsewhere(issues, heads[k], subject)
  {
    var l :| 0 <= l < |decision.winners| && decision.winners[l] == subject;
    assert IsWinner(issues, decision, heads[l], l) && IsWinner(issues, decision, heads[k], k);
    ComponentRefl(issues, heads[k]);
    assert Joins(issues, heads[k], heads[k]);
    assert Elsewhere(issues, heads[k], heads[l]);
  }

  /** Marking the claims of other winners, in any number, leaves a winner the winner of every snapshot that
      then agrees on its repository. */
  lemma ClaimsKeepNamedWinner(
    issues: seq<Issue>, decision: Decision, subjects: seq<string>, i: nat, reread: seq<Issue>, recheck: Decision)
    requires WellNumbered(issues) && Identified(issues)
    requires MalformedIsUnschedulable(issues) && IsDecision(issues, decision)
    requires i < |issues| && issues[i].subject in decision.winners
    requires forall s :: s in subjects ==> s in decision.winners && s != issues[i].subject
    requires SameSnapshot(Marked(issues, subjects), reread, {issues[i].repository}) && IsDecision(reread, recheck)
    ensures issues[i].subject in recheck.winners
  {
    var heads := WinnersExact(issues, decision);
    var k :| 0 <= k < |decision.winners| && decision.winners[k] == issues[i].subject;
    assert IsWinner(issues, decision, heads[k], k);
    assert heads[k] == i;
    forall a | 0 <= a < |subjects| ensures NamesElsewhere(issues, i, subjects[a]) {
      assert subjects[a] in subjects;
      OtherWinnerIsElsewhere(issues, decision, heads, k, subjects[a]);
    }
    MarkedKeepsLeast(issues, subjects, i);
    LeastIsNamedWinner(issues, Marked(issues, subjects), i, reread, recheck);
  }

  // ----- the frontier

  /** The frontier lists each eligible issue once, by repository and number. */
  lemma FrontierExact(issues: seq<Issue>, decision: Decision) returns (lanes: seq<Lane>)
    requires IsDecision(issues, decision)
    ensures decision.frontier == Subjects(lanes) && SortedBy(lanes, LaneLe)
    ensures |lanes| == |EligiblePositions(issues)| && forall l :: l in lanes <==> IsEligibleLane(issues, l)
  {
    var comps: seq<seq<Slot>> :| Decides(issues, comps, decision);
    lanes := Sort(Flatten(LanesOf(comps)), LaneLe);
    LaneLeIsTotalPreorder();
    SortSorts(Flatten(LanesOf(comps)), LaneLe);
    FlattenLanes(comps);
    SlotsAreEligible(issues, comps);
    CountSlots(issues, Flatten(comps));
    ShowSlots(issues, Flatten(comps));
  }

  ghost predicate IsEligibleLane(issues: seq<Issue>, l: Lane) {
    exists i: nat :: i < |issues| && Eligible(issues, i) && l == LaneOf(issues[i])
  }

  /** Each eligible issue has its slot in the list, once. */
  ghost predicate ListsEligible(issues: seq<Issue>, slots: seq<Slot>) {
    && (forall s :: s in slots <==> SlotAt(issues, s) && Eligible(issues, s.pos))
    && forall a, b :: 0 <= a < b < |slots| ==> slots[a].pos != slots[b].pos
  }

  lemma CountSlots(issues: seq<Issue>, slots: seq<Slot>)
    requires ListsEligible(issues, slots)
    ensures |slots| == |EligiblePositions(issues)|
  {
    var positions := seq(|slots|, a requires 0 <= a < |slots| => slots[a].pos);
    DistinctCount(positions);
    forall i | i in EligiblePositions(issues) ensures i in positions {
      assert SlotAt(issues, SlotOf(issues, i));
      var a :| 0 <= a < |slots| && slots[a] == SlotOf(issues, i);
      assert positions[a] == i;
    }
    forall a | 0 <= a < |slots| ensures positions[a] in EligiblePositions(issues) {
      assert slots[a] in slots;
    }
    assert Elements(positions) == EligiblePositions(issues);
  }

  lemma ShowSlots(issues: seq<Issue>, slots: seq<Slot>)
    requires ListsEligible(issues, slots)
    ensures forall l :: l in LaneList(slots) <==> IsEligibleLane(issues, l)
  {
    forall l ensures l in LaneList(slots) <==> IsEligibleLane(issues, l) {
      if l in LaneList(slots) {
        var a :| 0 <= a < |slots| && slots[a].lane == l;
        assert slots[a] in slots;
      }
      if IsEligibleLane(issues, l) {
        var i: nat :| i < |issues| && Eligible(issues, i) && l == LaneOf(issues[i]);
        assert SlotAt(issues, SlotOf(issues, i));
        var a :| 0 <= a < |slots| && slots[a] == SlotOf(issues, i);
        assert LaneList(slots)[a] == l;
      }
    }
  }

  ghost function EligiblePositions(issues: seq<Issue>): (r: set<nat>)
    ensures forall i :: i in r ==> i < |issues|
  {
    set i: nat | i < |issues| && Eligible(issues, i)
  }

  lemma {:induction false} FlattenLanes(comps: seq<seq<Slot>>)
    ensures Flatten(LanesOf(comps)) == LaneList(Flatten(comps))
  {
    if comps == [] {
    } else {
      FlattenLanes(comps[1..]);
      assert LanesOf(comps)[1..] == LanesOf(comps[1..]);
      assert LanesOf(comps)[0] == LaneList(comps[0]);
    }
  }

  lemma {:induction false} FlattenMembers<T(!new)>(s: seq<seq<T>>)
    requires forall k :: 0 <= k < |s| ==> Distinct(s[k])
    requires forall k, l, x :: 0 <= k < l < |s| && x in s[k] ==> x !in s[l]
    ensures forall x :: x in Flatten(s) <==> exists k :: 0 <= k < |s| && x in s[k]
    ensures Distinct(Flatten(s))
  {
    if s == [] {
    } else {
      FlattenMembers(s[1..]);
      forall x ensures x in Flatten(s[1..]) <==> exists k :: 1 <= k < |s| && x in s[k] {
        if k :| 1 <= k < |s| && x in s[k] { assert x in s[1..][k - 1]; }
      }
      DistinctConcat(s[0], Flatten(s[1..]));
    }
  }

  lemma SlotsAreEligible(issues: seq<Issue>, comps: seq<seq<Slot>>)
    requires AreComponents(issues, Repositories(issues), comps)
    ensures ListsEligible(issues, Flatten(comps))
  {
    forall k, l, x | 0 <= k < l < |comps| && x in comps[k] ensures x !in comps[l] {
      if x in comps[l] { HeadsMeet(issues, comps[k][0].pos, comps[l][0].pos, x.pos); }
    }
    FlattenMembers(comps);
    forall s | SlotAt(issues, s) && Eligible(issues, s.pos) ensures s in Flatten(comps) {
      assert Listed(issues, comps, s.pos);
    }
    var slots: seq<Slot> := Flatten(comps);
    forall a, b | 0 <= a < b < |slots| ensures slots[a].pos != slots[b].pos {
      assert slots[a] in slots && slots[b] in slots && slots[a] != slots[b];
      assert SlotAt(issues, slots[a]) && SlotAt(issues, slots[b]);
    }
  }
}
