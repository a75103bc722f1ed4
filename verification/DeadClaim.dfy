/** Dead-claim detection and crash-safe release in one repository (claim_contract.py:180-413). */
module DeadClaim {
  import opened Wrappers
  import opened Ordering
  import opened ClaimNames

  datatype State = Ready | InProgress | AwaitingLand | Landed | Blocked

  datatype IssueRead = Unreadable | Issue(open: bool, state: State)

  datatype Pull = Pull(number: nat, head: string)

  /** A ledger session tied to the subject, with its last event if any is dated. */
  datatype Session = Session(id: string, lastEvent: Option<int>)

  datatype Receipt = Receipt(number: nat, branch: string, head: string, preserved: string, pull: nat, blocker: string)

  const LIVENESS_WINDOW := 3600

  /** Everything the detector reads and the release writes. */
  datatype World = World(
    refs: map<string, string>, issues: map<nat, IssueRead>, pulls: map<nat, seq<Pull>>,
    sessions: map<nat, seq<Session>>, receipts: map<string, Receipt>)

  /** Refs as an accepted provider readback gives them. */
  ghost predicate WellFormed(w: World) {
    forall b :: b in w.refs ==> IsHead(w.refs[b])
  }

  datatype Class =
    | UnreadableIssue | NotAwaitingLand | NoSingleOpenPr | PrePr | LiveSession | HeadDrift
    | ReleasedResidue(pull: nat) | DeadClaim(pull: nat)

  predicate IsOwned(c: Class) {
    c.ReleasedResidue? || c.DeadClaim?
  }

  predicate Live(s: Session, now: int) {
    s.lastEvent.Some? && now - s.lastEvent.value <= LIVENESS_WINDOW
  }

  function SessionsOf(w: World, n: nat): seq<Session> {
    if n in w.sessions then w.sessions[n] else []
  }

  function PullsOf(w: World, n: nat): seq<Pull> {
    if n in w.pulls then w.pulls[n] else []
  }

  predicate HeldBy(refs: map<string, string>, branch: string, head: string) {
    branch in refs && refs[branch] == head
  }

  /** The class of the claim of issue n at `head`. */
  function Classify(w: World, n: nat, head: string, now: int): Class {
    if n !in w.issues || w.issues[n].Unreadable? then UnreadableIssue
    else if !w.issues[n].open || w.issues[n].state !in {AwaitingLand, Ready} then NotAwaitingLand
    else if PullsOf(w, n) == [] then (if w.issues[n].state != Ready then NoSingleOpenPr else PrePr)
    else if |PullsOf(w, n)| != 1 then NoSingleOpenPr
    else if exists s | s in SessionsOf(w, n) :: Live(s, now) then LiveSession
    else if PullsOf(w, n)[0].head != head then HeadDrift
    else if w.issues[n].state == Ready then
      (if HeldBy(w.refs, SalvageBranch(n, head), head) then ReleasedResidue(PullsOf(w, n)[0].number)
        else NotAwaitingLand)
    else DeadClaim(PullsOf(w, n)[0].number)
  }

  // ----- release

  /** One durable write of a release. */
  datatype Effect =
    | CreateRef(name: string, head: string)
    | SetReady(number: nat)
    | DeleteRef(name: string)
    | WriteReceipt(path: string, receipt: Receipt)

  function Apply(w: World, e: Effect): World {
    match e
    case CreateRef(name, head) => w.(refs := w.refs[name := head])
    case SetReady(n) =>
      w.(issues :=
        if n in w.issues && w.issues[n].Issue? then w.issues[n := w.issues[n].(state := Ready)] else w.issues)
    case DeleteRef(name) => w.(refs := w.refs - {name})
    case WriteReceipt(path, receipt) => w.(receipts := w.receipts[path := receipt])
  }

  function ApplyAll(w: World, es: seq<Effect>): World {
    if es == [] then w else Apply(ApplyAll(w, es[..|es| - 1]), es[|es| - 1])
  }

  function ReceiptPath(branch: string, head: string): string {
    "release-" + branch + "-" + if |head| >= 12 then head[..12] else head
  }

  /** The salvage name is taken by a different head. */
  predicate SalvageTaken(w: World, n: nat, head: string) {
    SalvageBranch(n, head) in w.refs && w.refs[SalvageBranch(n, head)] != head
  }

  function ReceiptOf(repo: string, n: nat, head: string, pull: nat, blocker: string): Receipt {
    Receipt(n, ExecuteBranch(repo, n), head, SalvageBranch(n, head), pull, blocker)
  }

  /** The writes that free a preserved claim, in order: flip the issue, free the name, record. */
  function FreeingPlan(repo: string, n: nat, head: string, pull: nat, blocker: string): seq<Effect> {
    var branch := ExecuteBranch(repo, n);
    [SetReady(n), DeleteRef(branch), WriteReceipt(ReceiptPath(branch, head), ReceiptOf(repo, n, head, pull, blocker))]
  }

  /** The writes of a whole release: preserve the head unless it already is, then free the claim. */
  function Plan(w: World, repo: string, n: nat, head: string, pull: nat, blocker: string): seq<Effect> {
    (if SalvageBranch(n, head) in w.refs then [] else [CreateRef(SalvageBranch(n, head), head)])
    + FreeingPlan(repo, n, head, pull, blocker)
  }

  /** Where one call is cut: before any write when the failed-run readback fails, after `writes` durable
      writes when it dies or a readback raises, or not at all. */
  datatype Fate = ReadbackFails | StopsAfter(writes: nat) | Completes

  function Cut(plan: seq<Effect>, fate: Fate): seq<Effect> {
    match fate
    case ReadbackFails => []
    case StopsAfter(k) => if k < |plan| then plan[..k] else plan
    case Completes => plan
  }

  /** The writes one call makes durable. */
  function Written(w: World, repo: string, n: nat, head: string, pull: nat, blocker: string, fate: Fate): seq<Effect> {
    if SalvageTaken(w, n, head) then [] else Cut(Plan(w, repo, n, head, pull, blocker), fate)
  }

  /** The rest of a call's fate once one write is made. */
  function AfterOne(fate: Fate): Fate
    requires fate != StopsAfter(0)
  {
    if fate.StopsAfter? then StopsAfter(fate.writes - 1) else fate
  }

  lemma CutCons(w: World, e: Effect, rest: seq<Effect>, fate: Fate)
    requires fate != StopsAfter(0) && fate != ReadbackFails
    ensures ApplyAll(w, Cut([e] + rest, fate)) == ApplyAll(Apply(w, e), Cut(rest, AfterOne(fate)))
  {
    var cut := Cut([e] + rest, fate);
    assert cut == [e] + Cut(rest, AfterOne(fate));
    ApplyCons(w, e, Cut(rest, AfterOne(fate)));
  }

  lemma {:induction false} ApplyCons(w: World, e: Effect, es: seq<Effect>)
    ensures ApplyAll(w, [e] + es) == ApplyAll(Apply(w, e), es)
  {
    var all := [e] + es;
    if es == [] {
      assert all[..0] == [];
    } else {
      ApplyCons(w, e, es[..|es| - 1]);
      assert all[..|all| - 1] == [e] + es[..|es| - 1];
    }
  }

  lemma CutThree(w: World, a: Effect, b: Effect, c: Effect, fate: Fate)
    requires !fate.ReadbackFails?
    ensures ApplyAll(w, Cut([a, b, c], fate)) ==
            if fate == StopsAfter(0) then w
            else if fate == StopsAfter(1) then Apply(w, a)
            else if fate == StopsAfter(2) then Apply(Apply(w, a), b)
            else Apply(Apply(Apply(w, a), b), c)
  {
    if fate != StopsAfter(0) {
      assert [a, b, c] == [a] + [b, c];
      CutCons(w, a, [b, c], fate);
      var f1 := AfterOne(fate);
      if f1 != StopsAfter(0) {
        assert [b, c] == [b] + [c];
        CutCons(Apply(w, a), b, [c], f1);
        if AfterOne(f1) != StopsAfter(0) {
          assert [c] == [c] + [];
          CutCons(Apply(Apply(w, a), b), c, [], AfterOne(f1));
        }
      }
    }
  }

  // ----- snapshot and sweep

  datatype Record = Record(number: nat, head: string, verdict: Class, sessions: seq<Session>)

  function ClaimNumbers(repo: string, refs: map<string, string>): set<nat> {
    set b | b in refs && IsExecuteRef(repo, b) :: ClaimNumber(repo, b)
  }

  lemma ClaimHasBranch(repo: string, refs: map<string, string>, n: nat)
    ensures n in ClaimNumbers(repo, refs) <==> n > 0 && ExecuteBranch(repo, n) in refs
  {
    if n in ClaimNumbers(repo, refs) {
      var b :| b in refs && IsExecuteRef(repo, b) && ClaimNumber(repo, b) == n;
      BranchOfClaimNumber(repo, b);
    }
    if n > 0 && ExecuteBranch(repo, n) in refs {
      ClaimNumberOfBranch(repo, n);
    }
  }

  predicate IsRecordOf(w: World, repo: string, now: int, r: Record) {
    && r.number > 0 && HeldBy(w.refs, ExecuteBranch(repo, r.number), r.head)
    && r.verdict == Classify(w, r.number, r.head, now) && r.sessions == SessionsOf(w, r.number)
  }

  /** One record per active claim, by issue number. */
  ghost predicate IsSnapshot(w: World, repo: string, now: int, records: seq<Record>) {
    && (forall k :: 0 <= k < |records| ==> IsRecordOf(w, repo, now, records[k]))
    && (forall k, l :: 0 <= k < l < |records| ==> records[k].number < records[l].number)
    && forall n {:trigger Recorded(records, n)} :: n in ClaimNumbers(repo, w.refs) ==> Recorded(records, n)
  }

  ghost predicate Recorded(records: seq<Record>, n: nat) {
    exists k :: 0 <= k < |records| && records[k].number == n
  }

  predicate NatLe(a: nat, b: nat) {
    a <= b
  }

  method Ascending(s: set<nat>) returns (r: seq<nat>)
    ensures SortedBy(r, NatLe) && Distinct(r) && forall n :: n in r <==> n in s
  {
    r := [];
    var rest := s;
    while rest != {}
      invariant SortedBy(r, NatLe) && Distinct(r) && rest <= s && forall n :: n in r <==> n in s - rest
      decreases rest
    {
      var n :| n in rest;
      InsertSorted(n, r, NatLe);
      r, rest := Insert(n, r, NatLe), rest - {n};
    }
  }

  /** What the sweep meets at one claim: whether adoption succeeds, and where a release is cut. */
  datatype Script = Script(adopted: bool, fate: Fate)

  datatype Action = Skipped | Adopted | Released | Held

  function Blocker(r: Record): string {
    if r.verdict.ReleasedResidue? then "in-flight release residue"
    else if r.sessions == [] then "no resumable worktree"
    else "adoption refused"
  }

  predicate Adopts(r: Record, script: Script) {
    r.verdict.DeadClaim? && r.sessions != [] && script.adopted
  }

  /** What the receipt stream says was done, in the world the claim is reached in. */
  function ActionOn(w: World, r: Record, script: Script): Action {
    if !IsOwned(r.verdict) then Skipped
    else if Adopts(r, script) then Adopted
    else if script.fate.Completes? && !SalvageTaken(w, r.number, r.head) then Released
    else Held
  }

  function SweepOne(w: World, repo: string, r: Record, script: Script): World {
    if !IsOwned(r.verdict) || Adopts(r, script) then w
    else ApplyAll(w, Written(w, repo, r.number, r.head, r.verdict.pull, Blocker(r), script.fate))
  }

  function SweepAll(w: World, repo: string, records: seq<Record>, script: nat -> Script): World {
    if records == [] then w
    else
      var last := records[|records| - 1];
      SweepOne(SweepAll(w, repo, records[..|records| - 1], script), repo, last, script(last.number))
  }

  /** Each handled claim got the action its world called for. */
  ghost predicate Done(w: World, repo: string, records: seq<Record>, script: nat -> Script, actions: seq<Action>) {
    && |actions| == |records|
    && (records != [] ==>
          var last := records[|records| - 1];
          var before := records[..|records| - 1];
          && actions[|actions| - 1] == ActionOn(SweepAll(w, repo, before, script), last, script(last.number))
          && Done(w, repo, before, script, actions[..|actions| - 1]))
  }

  lemma DoneNext(w: World, repo: string, records: seq<Record>, script: nat -> Script, actions: seq<Action>, r: Record)
    requires Done(w, repo, records, script, actions)
    ensures var now := SweepAll(w, repo, records, script);
            && SweepAll(w, repo, records + [r], script) == SweepOne(now, repo, r, script(r.number))
            && Done(w, repo, records + [r], script, actions + [ActionOn(now, r, script(r.number))])
  {
    assert (records + [r])[..|records|] == records;
    var more := actions + [ActionOn(SweepAll(w, repo, records, script), r, script(r.number))];
    assert more[..|actions|] == actions;
  }

  class Provider {
    const repo: string
    var refs: map<string, string>
    var issues: map<nat, IssueRead>
    var receipts: map<string, Receipt>
    var pulls: map<nat, seq<Pull>>
    var sessions: map<nat, seq<Session>>

    constructor (repo: string, w: World)
      ensures this.repo == repo && Now() == w
    {
      this.repo := repo;
      refs, issues, receipts, pulls, sessions := w.refs, w.issues, w.receipts, w.pulls, w.sessions;
    }

    ghost function Now(): World
      reads this
    {
      World(refs, issues, pulls, sessions, receipts)
    }

    /** The last three writes of a release. */
    method Free(n: nat, head: string, pull: nat, blocker: string, fate: Fate)
      requires !fate.ReadbackFails?
      modifies this`refs, this`issues, this`receipts
      ensures Now() == ApplyAll(old(Now()), Cut(FreeingPlan(repo, n, head, pull, blocker), fate))
    {
      var branch := ExecuteBranch(repo, n);
      var receipt := ReceiptOf(repo, n, head, pull, blocker);
      CutThree(Now(), SetReady(n), DeleteRef(branch), WriteReceipt(ReceiptPath(branch, head), receipt), fate);
      if fate == StopsAfter(0) { return; }
      if n in issues && issues[n].Issue? {
        issues := issues[n := issues[n].(state := Ready)];
      }
      if fate == StopsAfter(1) { return; }
      refs := refs - {branch};
      if fate == StopsAfter(2) { return; }
      receipts := receipts[ReceiptPath(branch, head) := receipt];
    }

    /** release_dead_claim. What survives a call cut anywhere is exactly the written prefix of the plan. */
    method Release(n: nat, head: string, pull: nat, blocker: string, fate: Fate) returns (released: bool)
      modifies this`refs, this`issues, this`receipts
      ensures Now() == ApplyAll(old(Now()), Written(old(Now()), repo, n, head, pull, blocker, fate))
      ensures released <==> fate.Completes? && !SalvageTaken(old(Now()), n, head)
    {
      released := false;
      var preserved, rest := SalvageBranch(n, head), fate;
      if fate.ReadbackFails? {
        return;
      }
      if preserved in refs {
        if refs[preserved] != head {
          return;
        }
        assert Plan(Now(), repo, n, head, pull, blocker) == FreeingPlan(repo, n, head, pull, blocker);
      } else {
        if fate == StopsAfter(0) { return; }
        CutCons(Now(), CreateRef(preserved, head), FreeingPlan(repo, n, head, pull, blocker), fate);
        refs := refs[preserved := head];
        rest := AfterOne(fate);
      }
      Free(n, head, pull, blocker, rest);
      released := fate.Completes?;
    }

    /** dead_claim_snapshot. */
    method Snapshot(now: int) returns (records: seq<Record>)
      ensures IsSnapshot(Now(), repo, now, records)
    {
      var w := World(refs, issues, pulls, sessions, receipts);
      var numbers := Ascending(ClaimNumbers(repo, refs));
      records := [];
      for k := 0 to |numbers|
        invariant |records| == k
        invariant forall a :: 0 <= a < k ==> records[a].number == numbers[a] && IsRecordOf(w, repo, now, records[a])
      {
        var n := numbers[k];
        ClaimHasBranch(repo, refs, n);
        var head := refs[ExecuteBranch(repo, n)];
        records := records + [Record(n, head, Classify(w, n, head, now), SessionsOf(w, n))];
      }
      forall n | n in ClaimNumbers(repo, refs) ensures Recorded(records, n) {
        var k :| 0 <= k < |numbers| && numbers[k] == n;
        assert records[k].number == n;
      }
      forall a, b | 0 <= a < b < |records| ensures records[a].number < records[b].number {
        assert NatLe(numbers[a], numbers[b]);
      }
    }

    /** Adopt or release one recorded claim. */
    method Handle(r: Record, script: Script) returns (action: Action)
      modifies this`refs, this`issues, this`receipts
      ensures Now() == SweepOne(old(Now()), repo, r, script) && action == ActionOn(old(Now()), r, script)
    {
      if !IsOwned(r.verdict) {
        return Skipped;
      }
      if Adopts(r, script) {
        return Adopted;
      }
      var released := Release(r.number, r.head, r.verdict.pull, Blocker(r), script.fate);
      action := if released then Released else Held;
    }

    /** The sweep's loop, cut by a crash once `limit` claims are handled. */
    method HandleAll(records: seq<Record>, script: nat -> Script, limit: nat) returns (actions: seq<Action>)
      modifies this`refs, this`issues, this`receipts
      ensures |actions| == if limit < |records| then limit else |records|
      ensures Now() == SweepAll(old(Now()), repo, records[..|actions|], script)
      ensures Done(old(Now()), repo, records[..|actions|], script, actions)
    {
      actions := [];
      ghost var w := Now();
      var end := if limit < |records| then limit else |records|;
      for k := 0 to end
        invariant |actions| == k && Now() == SweepAll(w, repo, records[..k], script)
        invariant Done(w, repo, records[..k], script, actions)
      {
        TakeNext(records, k);
        DoneNext(w, repo, records[..k], script, actions, records[k]);
        var action := Handle(records[k], script(records[k].number));
        actions := actions + [action];
      }
    }

    /** sweep_dead_claims. */
    method Sweep(now: int, script: nat -> Script, limit: nat) returns (records: seq<Record>, actions: seq<Action>)
      modifies this`refs, this`issues, this`receipts
      ensures IsSnapshot(old(Now()), repo, now, records)
      ensures |actions| == if limit < |records| then limit else |records|
      ensures Now() == SweepAll(old(Now()), repo, records[..|actions|], script)
      ensures Done(old(Now()), repo, records[..|actions|], script, actions)
    {
      records := Snapshot(now);
      actions := HandleAll(records, script, limit);
    }
  }
}
