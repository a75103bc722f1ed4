/** The scheduler's decision (schedule_domain.py:32-84): what it must be, and the union-find that computes it. */
module Schedule {
  import opened Wrappers
  import opened Ordering
  import DisjointSets

  datatype Issue = Issue(
    subject: string, repository: string, number: int, dependencies: seq<string>,
    p0: bool, schedulable: bool, claimed: bool, malformed: bool, boundary: Option<seq<string>>)

  /** What the decision shows of an issue. */
  datatype Lane = Lane(repository: string, number: int, subject: string)

  /** An issue object of the snapshot: its lane, and its identity as a position. */
  datatype Slot = Slot(lane: Lane, pos: nat)

  datatype Decision = Decision(
    frontier: seq<string>, components: seq<seq<string>>, winners: seq<string>, maxUsefulWorkers: nat)

  // ----- plain graph connectivity

  predicate Named(issues: seq<Issue>, repo: string, subject: string) {
    exists i | 0 <= i < |issues| :: issues[i].repository == repo && issues[i].subject == subject
  }

  /** The dependency edges of one repository whose two ends are both in the snapshot. */
  function LinksOf(issues: seq<Issue>, repo: string): set<(string, string)> {
    set i, d | 0 <= i < |issues| && issues[i].repository == repo
               && d in issues[i].dependencies && Named(issues, repo, d) :: (issues[i].subject, d)
  }

  ghost predicate Linked(links: set<(string, string)>, x: string, y: string) {
    (x, y) in links || (y, x) in links
  }

  ghost predicate Walk(links: set<(string, string)>, p: seq<string>) {
    |p| > 0 && forall k {:trigger StepAt(links, p, k)} :: 0 <= k < |p| - 1 ==> StepAt(links, p, k)
  }

  ghost predicate StepAt(links: set<(string, string)>, p: seq<string>, k: int)
    requires 0 <= k < |p| - 1
  {
    Linked(links, p[k], p[k + 1])
  }

  ghost predicate WalkFrom(links: set<(string, string)>, p: seq<string>, x: string, y: string) {
    Walk(links, p) && p[0] == x && p[|p| - 1] == y
  }

  ghost predicate Connected(links: set<(string, string)>, x: string, y: string) {
    exists p :: WalkFrom(links, p, x, y)
  }

  lemma ConnectedRefl(links: set<(string, string)>, x: string)
    ensures Connected(links, x, x)
  {
    assert WalkFrom(links, [x], x, x);
  }

  lemma ConnectedStep(links: set<(string, string)>, x: string, y: string)
    requires Linked(links, x, y)
    ensures Connected(links, x, y)
  {
    assert WalkFrom(links, [x, y], x, y);
  }

  lemma ConnectedTrans(links: set<(string, string)>, x: string, y: string, z: string)
    requires Connected(links, x, y) && Connected(links, y, z)
    ensures Connected(links, x, z)
  {
    var p :| WalkFrom(links, p, x, y);
    var q :| WalkFrom(links, q, y, z);
    var w := p + q[1..];
    forall k | 0 <= k < |w| - 1 ensures StepAt(links, w, k) {
      if k < |p| - 1 { assert StepAt(links, p, k); } else { assert StepAt(links, q, k - (|p| - 1)); }
    }
    assert WalkFrom(links, w, x, z);
  }

  lemma {:induction false} ConnectedSym(links: set<(string, string)>, x: string, y: string)
    requires Connected(links, x, y)
    ensures Connected(links, y, x)
  {
    var p :| WalkFrom(links, p, x, y);
    var q := seq(|p|, k requires 0 <= k < |p| => p[|p| - 1 - k]);
    forall k | 0 <= k < |q| - 1 ensures StepAt(links, q, k) {
      assert StepAt(links, p, |p| - 2 - k);
    }
    assert WalkFrom(links, q, y, x);
  }

  /** A labelling that agrees across every edge is constant on connected names. */
  lemma {:induction false} WalkKeepsLabel(links: set<(string, string)>, tag: map<string, string>, p: seq<string>)
    requires forall e :: e in links ==> e.0 in tag && e.1 in tag && tag[e.0] == tag[e.1]
    requires Walk(links, p) && p[0] in tag
    ensures p[|p| - 1] in tag && tag[p[|p| - 1]] == tag[p[0]]
  {
    if |p| <= 1 {
    } else {
      assert StepAt(links, p, 0);
      assert Walk(links, p[1..]) by {
        forall k | 0 <= k < |p[1..]| - 1 ensures StepAt(links, p[1..], k) {
          assert StepAt(links, p, k + 1);
        }
      }
      WalkKeepsLabel(links, tag, p[1..]);
    }
  }

  // ----- what the decision is about

  ghost predicate SameComponent(issues: seq<Issue>, i: nat, j: nat)
    requires i < |issues| && j < |issues|
  {
    && issues[i].repository == issues[j].repository
    && Connected(LinksOf(issues, issues[i].repository), issues[i].subject, issues[j].subject)
  }

  lemma ComponentSym(issues: seq<Issue>, i: nat, j: nat)
    requires i < |issues| && j < |issues| && SameComponent(issues, i, j)
    ensures SameComponent(issues, j, i)
  {
    ConnectedSym(LinksOf(issues, issues[i].repository), issues[i].subject, issues[j].subject);
  }

  lemma ComponentTrans(issues: seq<Issue>, i: nat, j: nat, k: nat)
    requires i < |issues| && j < |issues| && k < |issues| && SameComponent(issues, i, j) && SameComponent(issues, j, k)
    ensures SameComponent(issues, i, k)
  {
    ConnectedTrans(LinksOf(issues, issues[i].repository), issues[i].subject, issues[j].subject, issues[k].subject);
  }

  /** A malformed live claim has unknown edges and closes its whole repository. */
  predicate Poisoned(issues: seq<Issue>, repo: string) {
    exists i | 0 <= i < |issues| :: issues[i].repository == repo && issues[i].claimed && issues[i].malformed
  }

  ghost predicate Held(issues: seq<Issue>, i: nat)
    requires i < |issues|
  {
    exists j: nat | j < |issues| :: issues[j].claimed && SameComponent(issues, j, i)
  }

  ghost predicate Eligible(issues: seq<Issue>, i: nat)
    requires i < |issues|
  {
    issues[i].p0 && issues[i].schedulable && !Poisoned(issues, issues[i].repository) && !Held(issues, i)
  }

  function LaneOf(issue: Issue): Lane {
    Lane(issue.repository, issue.number, issue.subject)
  }

  function SlotOf(issues: seq<Issue>, i: nat): Slot
    requires i < |issues|
  {
    Slot(LaneOf(issues[i]), i)
  }

  ghost predicate SlotAt(issues: seq<Issue>, s: Slot) {
    s.pos < |issues| && s == SlotOf(issues, s.pos)
  }

  predicate LaneLe(a: Lane, b: Lane) {
    if a.repository == b.repository then a.number <= b.number else StrLe(a.repository, b.repository)
  }

  predicate SlotLe(a: Slot, b: Slot) {
    LaneLe(a.lane, b.lane)
  }

  predicate GroupLe(a: seq<Slot>, b: seq<Slot>) {
    a == [] || (b != [] && SlotLe(a[0], b[0]))
  }

  /** g lists, by number, every eligible issue connected to its own first entry. */
  ghost predicate IsComponent(issues: seq<Issue>, g: seq<Slot>) {
    && g != [] && SlotAt(issues, g[0])
    && Distinct(g) && SortedBy(g, SlotLe)
    && forall s :: s in g <==> SlotAt(issues, s) && Eligible(issues, s.pos) && SameComponent(issues, g[0].pos, s.pos)
  }

  /** Every list is the component of its head, and no component appears twice. */
  ghost predicate AreSeparate(issues: seq<Issue>, repos: set<string>, comps: seq<seq<Slot>>) {
    && (forall k :: 0 <= k < |comps| ==> IsComponent(issues, comps[k]) && comps[k][0].lane.repository in repos)
    && forall k, l :: 0 <= k < l < |comps| ==> !SameComponent(issues, comps[k][0].pos, comps[l][0].pos)
  }

  ghost predicate AllListed(issues: seq<Issue>, repos: set<string>, comps: seq<seq<Slot>>) {
    forall i: nat {:trigger Listed(issues, comps, i)} ::
      i < |issues| && issues[i].repository in repos && Eligible(issues, i) ==> Listed(issues, comps, i)
  }

  /** comps lists each component with an eligible issue once, by repository and lowest eligible number. */
  ghost predicate AreComponents(issues: seq<Issue>, repos: set<string>, comps: seq<seq<Slot>>) {
    AreSeparate(issues, repos, comps) && AllListed(issues, repos, comps) && SortedBy(comps, GroupLe)
  }

  ghost predicate Listed(issues: seq<Issue>, comps: seq<seq<Slot>>, i: nat)
    requires i < |issues|
  {
    exists k :: 0 <= k < |comps| && SlotOf(issues, i) in comps[k]
  }

  function Repositories(issues: seq<Issue>): set<string> {
    set i | 0 <= i < |issues| :: issues[i].repository
  }

  function Flatten<T>(s: seq<seq<T>>): seq<T> {
    if s == [] then [] else s[0] + Flatten(s[1..])
  }

  function LanesOf(comps: seq<seq<Slot>>): (r: seq<seq<Lane>>)
    ensures |r| == |comps| && forall k :: 0 <= k < |comps| ==> |r[k]| == |comps[k]|
  {
    seq(|comps|, k requires 0 <= k < |comps| => seq(|comps[k]|, a requires 0 <= a < |comps[k]| => comps[k][a].lane))
  }

  function Subjects(lanes: seq<Lane>): seq<string> {
    seq(|lanes|, k requires 0 <= k < |lanes| => lanes[k].subject)
  }

  /** The receipt fields, from the components in order. */
  function Describe(lanes: seq<seq<Lane>>): Decision
    requires forall k :: 0 <= k < |lanes| ==> lanes[k] != []
  {
    Decision(
      Subjects(Sort(Flatten(lanes), LaneLe)),
      seq(|lanes|, k requires 0 <= k < |lanes| => Subjects(lanes[k])),
      seq(|lanes|, k requires 0 <= k < |lanes| => lanes[k][0].subject),
      |lanes|)
  }

  lemma LaneLeIsTotalPreorder()
    ensures TotalPreorder(LaneLe)
  {
    forall a: Lane, b: Lane ensures LaneLe(a, b) || LaneLe(b, a) { StrLeTotal(a.repository, b.repository); }
    forall a: Lane, b: Lane, c: Lane | LaneLe(a, b) && LaneLe(b, c) ensures LaneLe(a, c) {
      if a.repository != b.repository && b.repository != c.repository {
        StrLeTransitive(a.repository, b.repository, c.repository);
        StrLeTotal(a.repository, b.repository);
      }
    }
  }

  lemma SlotOrdersAreTotalPreorders()
    ensures TotalPreorder(SlotLe) && TotalPreorder(GroupLe)
  {
    LaneLeIsTotalPreorder();
    assert TotalPreorder(SlotLe);
    forall a: seq<Slot>, b: seq<Slot> ensures GroupLe(a, b) || GroupLe(b, a) {
      if a != [] && b != [] { assert SlotLe(a[0], b[0]) || SlotLe(b[0], a[0]); }
    }
    forall a: seq<Slot>, b: seq<Slot>, c: seq<Slot> | GroupLe(a, b) && GroupLe(b, c) ensures GroupLe(a, c) {
      if a != [] { assert SlotLe(a[0], b[0]) && SlotLe(b[0], c[0]); }
    }
  }

  // ----- the computation

  ghost predicate InRepository(issues: seq<Issue>, repo: string, i: nat) {
    i < |issues| && issues[i].repository == repo
  }

  /** mine lists the positions of one repository's issues in snapshot order. */
  ghost predicate PositionsOf(issues: seq<Issue>, repo: string, mine: seq<nat>) {
    && (forall a :: 0 <= a < |mine| ==> InRepository(issues, repo, mine[a]))
    && (forall i {:trigger InRepository(issues, repo, i)} :: InRepository(issues, repo, i) ==> i in mine)
    && forall a, b :: 0 <= a < b < |mine| ==> mine[a] < mine[b]
  }

  /** Every listed issue has a name in the index, and no issue is listed twice. */
  ghost predicate Indexed(issues: seq<Issue>, mine: seq<nat>, index: set<string>) {
    && Distinct(mine)
    && forall a :: 0 <= a < |mine| ==> mine[a] < |issues| && issues[mine[a]].subject in index
  }

  /** Sharing a root is being connected. */
  ghost predicate RootsAreComponents(links: set<(string, string)>, root: map<string, string>) {
    forall x, y :: x in root && y in root ==> (root[x] == root[y] <==> Connected(links, x, y))
  }

  ghost predicate RootsReachable(links: set<(string, string)>, root: map<string, string>) {
    forall x :: x in root ==> Connected(links, x, root[x])
  }

  ghost predicate LinkJoined(root: map<string, string>, x: string, y: string) {
    x in root && y in root && root[x] == root[y]
  }

  lemma MergeKeepsReachable(links: set<(string, string)>, root: map<string, string>, a: string, b: string)
    requires RootsReachable(links, root) && a in root && b in root && Linked(links, a, b)
    ensures RootsReachable(links, DisjointSets.Merged(root, root[a], root[b]))
  {
    forall x | x in root && root[x] == root[a] ensures Connected(links, x, root[b]) {
      ConnectedSym(links, a, root[a]);
      ConnectedTrans(links, x, root[a], a);
      ConnectedStep(links, a, b);
      ConnectedTrans(links, x, a, b);
      ConnectedTrans(links, x, b, root[b]);
    }
  }

  lemma RootsSettle(links: set<(string, string)>, root: map<string, string>)
    requires RootsReachable(links, root)
    requires forall e :: e in links ==> LinkJoined(root, e.0, e.1)
    ensures RootsAreComponents(links, root)
  {
    forall x, y | x in root && y in root ensures root[x] == root[y] <==> Connected(links, x, y) {
      if root[x] == root[y] {
        ConnectedSym(links, y, root[y]);
        ConnectedTrans(links, x, root[x], y);
      }
      if Connected(links, x, y) {
        var p :| WalkFrom(links, p, x, y);
        WalkKeepsLabel(links, root, p);
      }
    }
  }

  /** The first n dependencies an issue declares inside the snapshot share its root. */
  ghost predicate JoinsFirst(issue: Issue, n: nat, root: map<string, string>)
    requires n <= |issue.dependencies|
  {
    forall b :: 0 <= b < n && issue.dependencies[b] in root ==> LinkJoined(root, issue.subject, issue.dependencies[b])
  }

  ghost predicate JoinsItsLinks(issue: Issue, root: map<string, string>) {
    JoinsFirst(issue, |issue.dependencies|, root)
  }

  ghost predicate Coarser(root: map<string, string>, root': map<string, string>) {
    root.Keys == root'.Keys && forall x, y :: LinkJoined(root, x, y) ==> LinkJoined(root', x, y)
  }

  lemma JoinNext(issue: Issue, n: nat, links: set<(string, string)>, root: map<string, string>)
    requires n < |issue.dependencies| && issue.dependencies[n] in root && issue.subject in root
    requires RootsReachable(links, root) && JoinsFirst(issue, n, root)
    requires (issue.subject, issue.dependencies[n]) in links
    ensures var root' := DisjointSets.Merged(root, root[issue.subject], root[issue.dependencies[n]]);
            RootsReachable(links, root') && JoinsFirst(issue, n + 1, root') && Coarser(root, root')
  {
    MergeKeepsReachable(links, root, issue.subject, issue.dependencies[n]);
  }

  ghost predicate LinksInside(issue: Issue, index: set<string>, links: set<(string, string)>) {
    forall d :: d in issue.dependencies && d in index ==> (issue.subject, d) in links
  }

  method LinkIssue(issue: Issue, forest: DisjointSets.Forest, ghost links: set<(string, string)>)
    requires forest.Valid() && forest.root.Keys == forest.parent.Keys && issue.subject in forest.parent
    requires RootsReachable(links, forest.root)
    requires LinksInside(issue, forest.parent.Keys, links)
    modifies forest
    ensures forest.Valid() && forest.root.Keys == forest.parent.Keys
    ensures RootsReachable(links, forest.root) && JoinsItsLinks(issue, forest.root)
    ensures Coarser(old(forest.root), forest.root)
  {
    ghost var before := forest.root;
    for j := 0 to |issue.dependencies|
      invariant forest.Valid() && forest.root.Keys == forest.parent.Keys == before.Keys
      invariant RootsReachable(links, forest.root) && JoinsFirst(issue, j, forest.root)
      invariant Coarser(before, forest.root)
    {
      var dependency := issue.dependencies[j];
      if dependency in forest.parent {
        assert dependency in issue.dependencies && (issue.subject, dependency) in links;
        JoinNext(issue, j, links, forest.root);
        forest.Link(issue.subject, dependency);
      }
    }
  }

  ghost predicate AllJoined(issues: seq<Issue>, done: seq<nat>, root: map<string, string>) {
    forall i :: i in done ==> i < |issues| && JoinsItsLinks(issues[i], root)
  }

  lemma CoarserKeepsJoins(
    issues: seq<Issue>, done: seq<nat>, i: nat, root: map<string, string>, root': map<string, string>)
    requires AllJoined(issues, done, root) && Coarser(root, root') && i < |issues| && JoinsItsLinks(issues[i], root')
    ensures AllJoined(issues, done + [i], root')
  {
    forall j | j in done ensures JoinsItsLinks(issues[j], root') {
      assert JoinsItsLinks(issues[j], root);
    }
  }

  lemma LinksAreJoined(issues: seq<Issue>, repo: string, mine: seq<nat>, root: map<string, string>)
    requires PositionsOf(issues, repo, mine) && root.Keys == set i | i in mine :: issues[i].subject
    requires AllJoined(issues, mine, root)
    ensures forall e :: e in LinksOf(issues, repo) ==> LinkJoined(root, e.0, e.1)
  {
    forall e | e in LinksOf(issues, repo) ensures LinkJoined(root, e.0, e.1) {
      var i, d :| 0 <= i < |issues| && issues[i].repository == repo && d in issues[i].dependencies
                  && Named(issues, repo, d) && e == (issues[i].subject, d);
      assert InRepository(issues, repo, i);
      assert i in mine && JoinsItsLinks(issues[i], root);
      var j :| 0 <= j < |issues| && issues[j].repository == repo && issues[j].subject == d;
      assert InRepository(issues, repo, j);
    }
  }

  /** What the unlinked index starts with: each name alone, and every declared edge inside it a link. */
  lemma IndexIsLinked(issues: seq<Issue>, repo: string, mine: seq<nat>, index: set<string>, root: map<string, string>)
    requires PositionsOf(issues, repo, mine) && index == set i | i in mine :: issues[i].subject
    requires root == map x | x in index :: x
    ensures Indexed(issues, mine, index) && RootsReachable(LinksOf(issues, repo), root)
    ensures forall a :: 0 <= a < |mine| ==> LinksInside(issues[mine[a]], index, LinksOf(issues, repo))
  {
    var links := LinksOf(issues, repo);
    forall x | x in root ensures Connected(links, x, root[x]) { ConnectedRefl(links, x); }
    forall a | 0 <= a < |mine| ensures LinksInside(issues[mine[a]], index, links) {
      forall d | d in issues[mine[a]].dependencies && d in index ensures (issues[mine[a]].subject, d) in links {
        var j :| j in mine && issues[j].subject == d;
        assert InRepository(issues, repo, mine[a]) && InRepository(issues, repo, j);
        assert Named(issues, repo, d);
      }
    }
  }

  method LinkDependencies(issues: seq<Issue>, repo: string, mine: seq<nat>) returns (forest: DisjointSets.Forest)
    requires PositionsOf(issues, repo, mine)
    ensures fresh(forest) && forest.Valid() && Indexed(issues, mine, forest.parent.Keys)
    ensures RootsAreComponents(LinksOf(issues, repo), forest.root)
  {
    var index := set i | i in mine :: issues[i].subject;
    ghost var links := LinksOf(issues, repo);
    forest := new DisjointSets.Forest(index);
    IndexIsLinked(issues, repo, mine, index, forest.root);
    for k := 0 to |mine|
      invariant fresh(forest) && forest.Valid() && forest.root.Keys == forest.parent.Keys == index
      invariant RootsReachable(links, forest.root)
      invariant AllJoined(issues, mine[..k], forest.root)
    {
      ghost var before := forest.root;
      LinkIssue(issues[mine[k]], forest, links);
      CoarserKeepsJoins(issues, mine[..k], mine[k], before, forest.root);
      TakeNext(mine, k);
    }
    assert mine[..|mine|] == mine;
    LinksAreJoined(issues, repo, mine, forest.root);
    RootsSettle(links, forest.root);
  }

  method ExcludedRoots(issues: seq<Issue>, mine: seq<nat>, forest: DisjointSets.Forest)
    returns (excluded: set<string>)
    requires forest.Valid() && Indexed(issues, mine, forest.parent.Keys)
    modifies forest`parent
    ensures forest.Valid() && forest.parent.Keys == old(forest.parent.Keys)
    ensures forall r :: r in excluded <==> HasClaimedMember(issues, mine, forest.root, r)
  {
    ghost var root := forest.root;
    excluded := {};
    for k := 0 to |mine|
      invariant forest.Valid() && forest.parent.Keys == root.Keys
      invariant forall r :: r in excluded <==> HasClaimedMember(issues, mine[..k], root, r)
    {
      if issues[mine[k]].claimed {
        var r := forest.Find(issues[mine[k]].subject);
        excluded := excluded + {r};
        assert ClaimedUnder(issues, root, r, mine[k]);
      }
      ghost var more := mine[..k + 1];
      TakeNext(mine, k);
      forall q ensures HasClaimedMember(issues, more, root, q)
                       <==> HasClaimedMember(issues, mine[..k], root, q) || ClaimedUnder(issues, root, q, mine[k]) {
        if ClaimedUnder(issues, root, q, mine[k]) { assert mine[k] in more; }
      }
    }
    assert mine[..|mine|] == mine;
  }

  ghost predicate HasClaimedMember(issues: seq<Issue>, mine: seq<nat>, root: map<string, string>, r: string) {
    exists i :: i in mine && ClaimedUnder(issues, root, r, i)
  }

  ghost predicate ClaimedUnder(issues: seq<Issue>, root: map<string, string>, r: string, i: nat) {
    i < |issues| && issues[i].claimed && issues[i].subject in root && root[issues[i].subject] == r
  }

  predicate Ready(issue: Issue) {
    issue.p0 && issue.schedulable
  }

  /** The p0 schedulable issues of the positions in done, gathered by unexcluded root in first-seen order. */
  ghost predicate Gathered(
    issues: seq<Issue>, done: seq<nat>, root: map<string, string>, excluded: set<string>,
    order: seq<string>, groups: map<string, seq<Slot>>)
  {
    && Grouped(order, groups)
    && (forall r, s :: r in groups && s in groups[r] ==> s.pos in done && Belongs(issues, root, excluded, r, s))
    && (forall r: string, s: Slot {:trigger Belongs(issues, root, excluded, r, s)} ::
          s.pos in done && Belongs(issues, root, excluded, r, s) ==> r in groups && s in groups[r])
  }

  /** One nonempty group without repetition for each root seen. */
  ghost predicate Grouped(order: seq<string>, groups: map<string, seq<Slot>>) {
    && Distinct(order) && (forall r :: r in order <==> r in groups)
    && (forall r :: r in groups ==> groups[r] != [] && Distinct(groups[r]))
  }

  lemma GroupedNext(order: seq<string>, groups: map<string, seq<Slot>>, r: string, s: Slot)
    requires Grouped(order, groups) && (r in groups ==> s !in groups[r])
    ensures Grouped(if r in groups then order else order + [r],
            groups[r := (if r in groups then groups[r] else []) + [s]])
  {
    if r in groups {
      DistinctSnoc(groups[r], s);
    } else {
      DistinctSnoc(order, r);
      DistinctSnoc([], s);
    }
  }

  ghost predicate Belongs(issues: seq<Issue>, root: map<string, string>, excluded: set<string>, r: string, s: Slot) {
    && SlotAt(issues, s) && Ready(issues[s.pos]) && s.lane.subject in root
    && root[s.lane.subject] == r && r !in excluded
  }

  /** Appends slot s to the group of its root, opening the group at its first member. */
  lemma GatherNext(
    issues: seq<Issue>, done: seq<nat>, root: map<string, string>, excluded: set<string>,
    order: seq<string>, groups: map<string, seq<Slot>>, s: Slot, r: string, order': seq<string>,
    groups': map<string, seq<Slot>>)
    requires Gathered(issues, done, root, excluded, order, groups)
    requires s.pos !in done && Belongs(issues, root, excluded, r, s)
    requires order' == if r in groups then order else order + [r]
    requires groups' == groups[r := (if r in groups then groups[r] else []) + [s]]
    ensures Gathered(issues, done + [s.pos], root, excluded, order', groups')
  {
    var kept := if r in groups then groups[r] else [];
    GroupedNext(order, groups, r, s);
    forall q, t | q in groups' && t in groups'[q]
      ensures t.pos in done + [s.pos] && Belongs(issues, root, excluded, q, t)
    {
      if q != r { assert t in groups[q]; } else if t != s { assert t in kept; }
    }
    forall q: string, t: Slot | t.pos in done + [s.pos] && Belongs(issues, root, excluded, q, t)
      ensures q in groups' && t in groups'[q]
    {
      if t.pos == s.pos { assert t == s && q == r; }
    }
  }

  lemma GatherSkip(
    issues: seq<Issue>, done: seq<nat>, root: map<string, string>, excluded: set<string>,
    order: seq<string>, groups: map<string, seq<Slot>>, i: nat)
    requires Gathered(issues, done, root, excluded, order, groups)
    requires i < |issues| && issues[i].subject in root
    requires !Ready(issues[i]) || root[issues[i].subject] in excluded
    ensures Gathered(issues, done + [i], root, excluded, order, groups)
  {
  }

  method GatherEligible(issues: seq<Issue>, mine: seq<nat>, forest: DisjointSets.Forest, excluded: set<string>)
    returns (order: seq<string>, groups: map<string, seq<Slot>>)
    requires forest.Valid() && Indexed(issues, mine, forest.parent.Keys)
    modifies forest`parent
    ensures Gathered(issues, mine, forest.root, excluded, order, groups)
  {
    ghost var root := forest.root;
    order, groups := [], map[];
    for k := 0 to |mine|
      invariant forest.Valid() && forest.parent.Keys == root.Keys
      invariant Gathered(issues, mine[..k], root, excluded, order, groups)
    {
      var i := mine[k];
      var r := forest.Find(issues[i].subject);
      if r !in excluded && issues[i].p0 && issues[i].schedulable {
        assert i !in mine[..k];
        var order', groups' := if r in groups then order else order + [r],
                               groups[r := (if r in groups then groups[r] else []) + [SlotOf(issues, i)]];
        GatherNext(issues, mine[..k], root, excluded, order, groups, SlotOf(issues, i), r, order', groups');
        order, groups := order', groups';
      } else {
        GatherSkip(issues, mine[..k], root, excluded, order, groups, i);
      }
      TakeNext(mine, k);
    }
    assert mine[..|mine|] == mine;
  }

  /** What linking and exclusion leave behind for one repository. */
  ghost predicate Settled(
    issues: seq<Issue>, repo: string, mine: seq<nat>, root: map<string, string>, excluded: set<string>) {
    && PositionsOf(issues, repo, mine) && Indexed(issues, mine, root.Keys)
    && RootsAreComponents(LinksOf(issues, repo), root)
    && forall r :: r in excluded <==> HasClaimedMember(issues, mine, root, r)
  }

  lemma SameRootSameComponent(
    issues: seq<Issue>, repo: string, mine: seq<nat>, root: map<string, string>, excluded: set<string>, i: nat, j: nat)
    requires Settled(issues, repo, mine, root, excluded)
    requires InRepository(issues, repo, i) && InRepository(issues, repo, j)
    ensures i in mine && issues[i].subject in root && issues[j].subject in root
    ensures SameComponent(issues, i, j) <==> root[issues[i].subject] == root[issues[j].subject]
  {
    assert i in mine && j in mine;
  }

  lemma HeldIsExcluded(
    issues: seq<Issue>, repo: string, mine: seq<nat>, root: map<string, string>, excluded: set<string>, i: nat)
    requires Settled(issues, repo, mine, root, excluded) && InRepository(issues, repo, i)
    ensures i in mine && issues[i].subject in root
    ensures Held(issues, i) <==> root[issues[i].subject] in excluded
  {
    SameRootSameComponent(issues, repo, mine, root, excluded, i, i);
    var r := root[issues[i].subject];
    if Held(issues, i) {
      var j: nat :| j < |issues| && issues[j].claimed && SameComponent(issues, j, i);
      assert InRepository(issues, repo, j);
      SameRootSameComponent(issues, repo, mine, root, excluded, j, i);
      assert ClaimedUnder(issues, root, r, j);
    }
    if r in excluded {
      var j :| j in mine && ClaimedUnder(issues, root, r, j);
      assert InRepository(issues, repo, j);
      SameRootSameComponent(issues, repo, mine, root, excluded, j, i);
    }
  }

  lemma BelongingIsEligible(
    issues: seq<Issue>, repo: string, mine: seq<nat>, root: map<string, string>, excluded: set<string>, i: nat)
    requires Settled(issues, repo, mine, root, excluded) && InRepository(issues, repo, i) && !Poisoned(issues, repo)
    ensures issues[i].subject in root
    ensures Belongs(issues, root, excluded, root[issues[i].subject], SlotOf(issues, i)) <==> Eligible(issues, i)
  {
    HeldIsExcluded(issues, repo, mine, root, excluded, i);
  }

  lemma GroupIsComponent(
    issues: seq<Issue>, repo: string, mine: seq<nat>, root: map<string, string>, excluded: set<string>,
    order: seq<string>, groups: map<string, seq<Slot>>, r: string)
    requires Settled(issues, repo, mine, root, excluded) && !Poisoned(issues, repo)
    requires Gathered(issues, mine, root, excluded, order, groups) && r in groups
    ensures IsComponent(issues, Sort(groups[r], SlotLe))
    ensures Sort(groups[r], SlotLe)[0].pos in mine
    ensures Belongs(issues, root, excluded, r, Sort(groups[r], SlotLe)[0])
  {
    var g := Sort(groups[r], SlotLe);
    SlotOrdersAreTotalPreorders();
    SortSorts(groups[r], SlotLe);
    assert g[0] in groups[r];
    var head := g[0].pos;
    assert InRepository(issues, repo, head);
    forall s ensures s in g <==> SlotAt(issues, s) && Eligible(issues, s.pos) && SameComponent(issues, head, s.pos) {
      if s in groups[r] {
        assert InRepository(issues, repo, s.pos);
        BelongingIsEligible(issues, repo, mine, root, excluded, s.pos);
        SameRootSameComponent(issues, repo, mine, root, excluded, head, s.pos);
      }
      if SlotAt(issues, s) && Eligible(issues, s.pos) && SameComponent(issues, head, s.pos) {
        assert InRepository(issues, repo, s.pos);
        BelongingIsEligible(issues, repo, mine, root, excluded, s.pos);
        SameRootSameComponent(issues, repo, mine, root, excluded, head, s.pos);
        assert Belongs(issues, root, excluded, r, s);
      }
    }
  }

  /** The sorted groups, one per root. */
  ghost predicate SortedGroups(order: seq<string>, groups: map<string, seq<Slot>>, lists: seq<seq<Slot>>) {
    && |lists| == |order| && Distinct(order)
    && forall k :: 0 <= k < |order| ==> order[k] in groups && lists[k] == Sort(groups[order[k]], SlotLe)
  }

  lemma GroupsAreSeparate(
    issues: seq<Issue>, repo: string, mine: seq<nat>, root: map<string, string>, excluded: set<string>,
    order: seq<string>, groups: map<string, seq<Slot>>, lists: seq<seq<Slot>>)
    requires Settled(issues, repo, mine, root, excluded) && !Poisoned(issues, repo)
    requires Gathered(issues, mine, root, excluded, order, groups) && SortedGroups(order, groups, lists)
    ensures AreSeparate(issues, {repo}, lists)
  {
    forall k | 0 <= k < |lists|
      ensures IsComponent(issues, lists[k]) && lists[k][0].lane.repository == repo
      ensures InRepository(issues, repo, lists[k][0].pos)
      ensures Belongs(issues, root, excluded, order[k], lists[k][0])
    {
      GroupIsComponent(issues, repo, mine, root, excluded, order, groups, order[k]);
    }
    forall k, l | 0 <= k < l < |lists| ensures !SameComponent(issues, lists[k][0].pos, lists[l][0].pos) {
      assert order[k] != order[l];
      SameRootSameComponent(issues, repo, mine, root, excluded, lists[k][0].pos, lists[l][0].pos);
    }
  }

  lemma GroupsAreComplete(
    issues: seq<Issue>, repo: string, mine: seq<nat>, root: map<string, string>, excluded: set<string>,
    order: seq<string>, groups: map<string, seq<Slot>>, lists: seq<seq<Slot>>)
    requires Settled(issues, repo, mine, root, excluded) && !Poisoned(issues, repo)
    requires Gathered(issues, mine, root, excluded, order, groups) && SortedGroups(order, groups, lists)
    ensures AllListed(issues, {repo}, lists)
  {
    forall i: nat | i < |issues| && issues[i].repository in {repo} && Eligible(issues, i)
      ensures Listed(issues, lists, i) {
      assert InRepository(issues, repo, i);
      HeldIsExcluded(issues, repo, mine, root, excluded, i);
      BelongingIsEligible(issues, repo, mine, root, excluded, i);
      var r := root[issues[i].subject];
      assert r in order && SlotOf(issues, i) in groups[r];
      var a :| 0 <= a < |order| && order[a] == r;
      assert SlotOf(issues, i) in lists[a];
    }
  }

  lemma PartStaysSeparate(issues: seq<Issue>, repos: set<string>, lists: seq<seq<Slot>>, comps: seq<seq<Slot>>)
    requires AreSeparate(issues, repos, lists) && Distinct(comps)
    requires forall g :: g in comps ==> g in lists
    ensures AreSeparate(issues, repos, comps)
  {
    forall k | 0 <= k < |comps| ensures IsComponent(issues, comps[k]) && comps[k][0].lane.repository in repos {
      assert comps[k] in lists;
    }
    forall k, l | 0 <= k < l < |comps|
      ensures !SameComponent(issues, comps[k][0].pos, comps[l][0].pos)
    {
      assert comps[k] in lists && comps[l] in lists && comps[k] != comps[l];
      var a :| 0 <= a < |lists| && lists[a] == comps[k];
      var b :| 0 <= b < |lists| && lists[b] == comps[l];
      if b < a && SameComponent(issues, lists[a][0].pos, lists[b][0].pos) {
        ComponentSym(issues, lists[a][0].pos, lists[b][0].pos);
      }
    }
  }

  lemma SortingComponents(issues: seq<Issue>, repos: set<string>, lists: seq<seq<Slot>>)
    requires AreSeparate(issues, repos, lists) && AllListed(issues, repos, lists)
    ensures AreComponents(issues, repos, Sort(lists, GroupLe))
  {
    var comps: seq<seq<Slot>> := Sort(lists, GroupLe);
    SlotOrdersAreTotalPreorders();
    SortSorts(lists, GroupLe);
    assert Distinct(lists) by {
      forall k, l | 0 <= k < l < |lists| ensures lists[k] != lists[l] {
        assert lists[k][0] in lists[k];
      }
    }
    PartStaysSeparate(issues, repos, lists, comps);
    forall i: nat | i < |issues| && issues[i].repository in repos && Eligible(issues, i)
      ensures Listed(issues, comps, i) {
      assert Listed(issues, lists, i);
      var a :| 0 <= a < |lists| && SlotOf(issues, i) in lists[a];
      assert lists[a] in comps;
    }
  }

  /** One repository's components. A repository with a malformed live claim contributes none. */
  method RepositoryComponents(issues: seq<Issue>, repo: string, mine: seq<nat>) returns (comps: seq<seq<Slot>>)
    requires PositionsOf(issues, repo, mine)
    ensures AreComponents(issues, {repo}, comps)
  {
    if Poisoned(issues, repo) {
      return [];
    }
    var forest := LinkDependencies(issues, repo, mine);
    ghost var root := forest.root;
    var excluded := ExcludedRoots(issues, mine, forest);
    var order, groups := GatherEligible(issues, mine, forest, excluded);
    var lists: seq<seq<Slot>> := [];
    for k := 0 to |order|
      invariant SortedGroups(order[..k], groups, lists)
    {
      assert order[k] in groups;
      lists := lists + [Sort(groups[order[k]], SlotLe)];
      TakeNext(order, k);
    }
    assert order[..|order|] == order;
    GroupsAreSeparate(issues, repo, mine, root, excluded, order, groups, lists);
    GroupsAreComplete(issues, repo, mine, root, excluded, order, groups, lists);
    SortingComponents(issues, {repo}, lists);
    comps := Sort(lists, GroupLe);
  }

  /** Adding a later repository's components keeps the list a component list. */
  lemma AppendRepository(
    issues: seq<Issue>, repos: set<string>, comps: seq<seq<Slot>>, repo: string, more: seq<seq<Slot>>)
    requires AreComponents(issues, repos, comps) && AreComponents(issues, {repo}, more)
    requires forall q :: q in repos ==> StrLe(q, repo) && q != repo
    ensures AreComponents(issues, repos + {repo}, comps + more)
  {
    var all: seq<seq<Slot>> := comps + more;
    forall k, l | 0 <= k < l < |all|
      ensures !SameComponent(issues, all[k][0].pos, all[l][0].pos) && GroupLe(all[k], all[l])
    {
      if k < |comps| <= l {
        assert all[k][0].lane.repository in repos && all[l][0].lane.repository == repo;
        assert all[k][0] in all[k] && all[l][0] in all[l];
      } else if |comps| <= k {
        assert all[k] == more[k - |comps|] && all[l] == more[l - |comps|];
      }
    }
    forall i: nat | i < |issues| && issues[i].repository in repos + {repo} && Eligible(issues, i)
      ensures Listed(issues, all, i) {
      if issues[i].repository in repos {
        assert Listed(issues, comps, i);
        var k :| 0 <= k < |comps| && SlotOf(issues, i) in comps[k];
        assert SlotOf(issues, i) in all[k];
      } else {
        assert Listed(issues, more, i);
        var k :| 0 <= k < |more| && SlotOf(issues, i) in more[k];
        assert SlotOf(issues, i) in all[|comps| + k];
      }
    }
  }

  /** The snapshot's issues by repository, and the repositories in sorted order. */
  method ByRepository(issues: seq<Issue>) returns (names: seq<string>, positions: map<string, seq<nat>>)
    ensures Distinct(names) && SortedBy(names, StrLe)
    ensures forall r :: r in names <==> r in Repositories(issues)
    ensures forall r :: r in names ==> r in positions && PositionsOf(issues, r, positions[r])
  {
    var seen: seq<string> := [];
    positions := map[];
    for i := 0 to |issues|
      invariant Distinct(seen) && (forall r :: r in seen <==> r in positions)
      invariant (forall r :: r in positions <==> r in Repositories(issues[..i]))
      invariant forall r :: r in positions ==> PositionsOf(issues[..i], r, positions[r])
    {
      var r := issues[i].repository;
      ghost var before := positions;
      if r !in positions {
        seen, positions := seen + [r], positions[r := []];
      }
      positions := positions[r := positions[r] + [i]];
      TakeNext(issues, i);
      RepositoriesSnoc(issues[..i], issues[i]);
      forall q | q in positions ensures PositionsOf(issues[..i + 1], q, positions[q]) {
        PositionsSnoc(issues[..i], q, if q in before then before[q] else [], issues[i]);
      }
    }
    assert issues[..|issues|] == issues;
    StrLeIsTotalPreorder();
    SortSorts(seen, StrLe);
    names := Sort(seen, StrLe);
  }

  lemma RepositoriesSnoc(issues: seq<Issue>, issue: Issue)
    ensures Repositories(issues + [issue]) == Repositories(issues) + {issue.repository}
  {
    var all := issues + [issue];
    forall r | r in Repositories(issues) ensures r in Repositories(all) {
      var i :| 0 <= i < |issues| && issues[i].repository == r;
      assert all[i].repository == r;
    }
    assert all[|issues|].repository == issue.repository;
  }

  lemma PositionsSnoc(issues: seq<Issue>, repo: string, mine: seq<nat>, issue: Issue)
    requires PositionsOf(issues, repo, mine) || (mine == [] && repo !in Repositories(issues))
    ensures PositionsOf(issues + [issue], repo, if issue.repository == repo then mine + [|issues|] else mine)
  {
    var all := issues + [issue];
    var more := if issue.repository == repo then mine + [|issues|] else mine;
    forall i: nat | InRepository(all, repo, i) ensures i in more {
      if i < |issues| { assert InRepository(issues, repo, i) && issues[i].repository in Repositories(issues); }
    }
  }

  ghost predicate Decides(issues: seq<Issue>, comps: seq<seq<Slot>>, decision: Decision) {
    AreComponents(issues, Repositories(issues), comps) && decision == Describe(LanesOf(comps))
  }

  /** The decision describes the components of the plain dependency graphs of the snapshot. */
  ghost predicate IsDecision(issues: seq<Issue>, decision: Decision) {
    exists comps :: Decides(issues, comps, decision)
  }

  /** schedule_decision. */
  method Decide(issues: seq<Issue>) returns (decision: Decision)
    ensures IsDecision(issues, decision)
  {
    var names, positions := ByRepository(issues);
    var found: seq<seq<Slot>> := [];
    for n := 0 to |names|
      invariant AreComponents(issues, Elements(names[..n]), found)
    {
      var more := RepositoryComponents(issues, names[n], positions[names[n]]);
      forall q | q in names[..n] ensures StrLe(q, names[n]) && q != names[n] {}
      AppendRepository(issues, Elements(names[..n]), found, names[n], more);
      found := found + more;
      TakeNext(names, n);
      assert Elements(names[..n + 1]) == Elements(names[..n]) + {names[n]};
    }
    assert names[..|names|] == names;
    assert Elements(names) == Repositories(issues);
    decision := Describe(LanesOf(found));
    assert Decides(issues, found, decision);
  }
}
