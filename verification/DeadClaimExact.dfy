/** What the sweep reads, does and writes, said of the readings alone (claim_contract.py:73-75,
    claim_contract.py:188-413). */
module DeadClaimExact {
  import opened Text
  import opened ClaimNames
  import opened DeadClaim
  import opened DeadClaimTheorems

  /** The issue is open in the given state. */
  ghost predicate Stands(w: World, n: nat, state: State) {
    n in w.issues && w.issues[n] == Issue(true, state)
  }

  ghost predicate Settles(w: World, n: nat) {
    Stands(w, n, AwaitingLand) || Stands(w, n, Ready)
  }

  ghost predicate Watched(w: World, n: nat, now: int) {
    n in w.sessions && exists s :: s in w.sessions[n] && s.lastEvent.Some? && now <= s.lastEvent.value + 3600
  }

  /** One open PR, at the claim head, and nobody alive on it. */
  ghost predicate Abandoned(w: World, n: nat, head: string, now: int) {
    && n in w.pulls && |w.pulls[n]| == 1 && w.pulls[n][0].head == head && !Watched(w, n, now)
  }

  ghost predicate Unopened(w: World, n: nat) {
    n !in w.pulls || w.pulls[n] == []
  }

  ghost predicate Preserved(w: World, n: nat, head: string) {
    var name := "progress-" + Decimal(n) + "-" + if |head| >= 12 then head[..12] else head;
    name in w.refs && w.refs[name] == head
  }

  lemma WatchedExact(w: World, n: nat, now: int)
    ensures Watched(w, n, now) <==> exists s :: s in SessionsOf(w, n) && Live(s, now)
  {
    if Watched(w, n, now) {
      var s :| s in w.sessions[n] && s.lastEvent.Some? && now <= s.lastEvent.value + 3600;
      assert s in SessionsOf(w, n) && Live(s, now);
    }
    if s :| s in SessionsOf(w, n) && Live(s, now) {
      assert s in w.sessions[n] && now <= s.lastEvent.value + 3600;
    }
  }

  /** Each class, exactly when the readings call for it; an owned claim carries the number of its one open PR. */
  lemma ClassifyExact(w: World, n: nat, head: string, now: int)
    ensures var c := Classify(w, n, head, now);
            && (c == UnreadableIssue <==> n !in w.issues || w.issues[n] == Unreadable)
            && (c == NotAwaitingLand <==>
                  || (n in w.issues && w.issues[n] != Unreadable && !Settles(w, n))
                  || (Stands(w, n, Ready) && Abandoned(w, n, head, now) && !Preserved(w, n, head)))
            && (c == PrePr <==> Stands(w, n, Ready) && Unopened(w, n))
            && (c == NoSingleOpenPr <==>
                  || (Stands(w, n, AwaitingLand) && Unopened(w, n))
                  || (Settles(w, n) && n in w.pulls && |w.pulls[n]| > 1))
            && (c == LiveSession <==> Settles(w, n) && n in w.pulls && |w.pulls[n]| == 1 && Watched(w, n, now))
            && (c == HeadDrift <==>
                  && Settles(w, n) && n in w.pulls && |w.pulls[n]| == 1 && !Watched(w, n, now)
                  && w.pulls[n][0].head != head)
    ensures var c := Classify(w, n, head, now);
            && (c.ReleasedResidue? <==>
                  Stands(w, n, Ready) && Abandoned(w, n, head, now) && Preserved(w, n, head))
            && (c.DeadClaim? <==> Stands(w, n, AwaitingLand) && Abandoned(w, n, head, now))
            && (c.ReleasedResidue? ==> c.pull == w.pulls[n][0].number)
            && (c.DeadClaim? ==> c.pull == w.pulls[n][0].number)
  {
    WatchedExact(w, n, now);
  }

  /** A snapshot is every issue whose execute branch is there, by number, each with the head it is at, its class and its
      sessions. */
  lemma SnapshotExact(w: World, repo: string, now: int, records: seq<Record>)
    requires IsSnapshot(w, repo, now, records)
    ensures forall k :: 0 <= k < |records| ==>
              var r, branch := records[k], ExecuteBranch(repo, records[k].number);
              && r.number > 0 && branch in w.refs && r.head == w.refs[branch]
              && r.verdict == Classify(w, r.number, r.head, now)
              && r.sessions == if r.number in w.sessions then w.sessions[r.number] else []
    ensures forall k, l :: 0 <= k < l < |records| ==> records[k].number < records[l].number
    ensures forall n: nat :: n > 0 && ExecuteBranch(repo, n) in w.refs ==>
              exists k :: 0 <= k < |records| && records[k].number == n
  {
    forall k | 0 <= k < |records| ensures IsRecordOf(w, repo, now, records[k]) {}
    forall n: nat | n > 0 && ExecuteBranch(repo, n) in w.refs
      ensures exists k :: 0 <= k < |records| && records[k].number == n
    {
      ClaimHasBranch(repo, w.refs, n);
      assert Recorded(records, n);
    }
  }

  /** The action taken on a record: only a dead claim is ever adopted, by one of its sessions; an owned claim that is
      not adopted is released or held. */
  lemma ActionExact(w: World, r: Record, script: Script)
    ensures var action, owned := ActionOn(w, r, script), r.verdict.DeadClaim? || r.verdict.ReleasedResidue?;
            var adopted := r.verdict.DeadClaim? && |r.sessions| > 0 && script.adopted;
            var taken := SalvageBranch(r.number, r.head) in w.refs && !Preserved(w, r.number, r.head);
            && (action == Skipped <==> !owned) && (action == Adopted <==> adopted)
            && (action == Released <==> owned && !adopted && script.fate.Completes? && !taken)
            && (action == Held <==> owned && !adopted && (script.fate.Completes? ==> taken))
  {
  }

  /** Why a released claim was not adopted. */
  ghost function BlockerText(r: Record): string {
    if r.verdict.ReleasedResidue? then "in-flight release residue"
    else if |r.sessions| > 0 then "adoption refused"
    else "no resumable worktree"
  }

  /** What each action leaves: nothing touched by a skip or an adoption; after a release the head under its salvage
      name, the claim's name free, the issue ready and the receipt filed, and nothing else moved. */
  lemma SweepOneExact(w: World, repo: string, r: Record, script: Script)
    ensures ActionOn(w, r, script) in {Skipped, Adopted} ==> SweepOne(w, repo, r, script) == w
    ensures ActionOn(w, r, script) == Released ==>
              var n, head, branch := r.number, r.head, ExecuteBranch(repo, r.number);
              var digits := if |head| >= 12 then head[..12] else head;
              var preserved := "progress-" + Decimal(n) + "-" + digits;
              SweepOne(w, repo, r, script) ==
              World(w.refs[preserved := head] - {branch},
                    if n in w.issues && w.issues[n].Issue? then w.issues[n := Issue(w.issues[n].open, Ready)]
                    else w.issues,
                    w.pulls, w.sessions,
                    w.receipts["release-" + branch + "-" + digits :=
                        Receipt(n, branch, head, preserved, r.verdict.pull, BlockerText(r))])
  {
    if ActionOn(w, r, script) == Released {
      FullRelease(w, repo, r.number, r.head, r.verdict.pull, Blocker(r));
    }
  }

  lemma FullRelease(w: World, repo: string, n: nat, head: string, pull: nat, blocker: string)
    requires !SalvageTaken(w, n, head)
    ensures var branch, preserved := ExecuteBranch(repo, n), SalvageBranch(n, head);
            var receipt := Receipt(n, branch, head, preserved, pull, blocker);
            ApplyAll(w, Written(w, repo, n, head, pull, blocker, Completes)) ==
            Apply(Apply(Apply(w.(refs := w.refs[preserved := head]), SetReady(n)), DeleteRef(branch)),
                  WriteReceipt(ReceiptPath(branch, head), receipt))
  {
    var preserved, branch := SalvageBranch(n, head), ExecuteBranch(repo, n);
    var v := if preserved in w.refs then w else Apply(w, CreateRef(preserved, head));
    assert v.refs == w.refs[preserved := head];
    WrittenShape(w, repo, n, head, pull, blocker, Completes);
    CutThree(v, SetReady(n), DeleteRef(branch),
             WriteReceipt(ReceiptPath(branch, head), ReceiptOf(repo, n, head, pull, blocker)), Completes);
  }

  /** The names a claim of a repository is known by. */
  lemma BranchTexts()
    ensures ExecuteBranch("ed3c/noodles", 42) == "ed3c-noodles-42-0-execute"
    ensures SalvageBranch(42, "0123456789abcdef") == "progress-42-0123456789ab"
  {
    assert Dashed("ed3c/noodles") == "ed3c-noodles";
    assert "0123456789abcdef"[..12] == "0123456789ab";
    FortyTwo();
  }

  lemma FortyTwo()
    ensures Decimal(42) == "42"
  {
    assert Decimal(4) == "4";
  }
}
