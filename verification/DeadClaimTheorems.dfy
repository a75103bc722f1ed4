/** A dead claim is never lost and never wedged: what holds after any sweep, cut anywhere, and over any
    run of sweeps with the PR, the sessions and the claim head held fixed (claim_contract.py:180-413). */
module DeadClaimTheorems {
  import opened ClaimNames
  import opened DeadClaim

  /** The detector still sees the claim of issue n and owns it. */
  ghost predicate Kept(w: World, repo: string, n: nat, head: string, now: int) {
    HeldBy(w.refs, ExecuteBranch(repo, n), head) && IsOwned(Classify(w, n, head, now))
  }

  /** The claim name is free, its head is preserved, and the issue is schedulable again. */
  ghost predicate Freed(w: World, repo: string, n: nat, head: string) {
    && ExecuteBranch(repo, n) !in w.refs
    && HeldBy(w.refs, SalvageBranch(n, head), head)
    && n in w.issues && w.issues[n].Issue? && w.issues[n].state == Ready
  }

  /** The two worlds agree on everything about issue n. */
  ghost predicate SameAt(v: World, w: World, repo: string, n: nat, head: string) {
    && SameEntry(v.refs, w.refs, ExecuteBranch(repo, n))
    && SameEntry(v.refs, w.refs, SalvageBranch(n, head))
    && SameEntry(v.issues, w.issues, n)
    && SessionsOf(v, n) == SessionsOf(w, n) && PullsOf(v, n) == PullsOf(w, n)
  }

  ghost predicate SameEntry<K, V>(a: map<K, V>, b: map<K, V>, k: K) {
    (k in a <==> k in b) && (k in a ==> a[k] == b[k])
  }

  /** The detector owns a claim exactly when its issue is open, one open PR stands at the claim head, no
      tied session is live, and the issue either awaits landing or is ready with the head preserved. */
  lemma OwnedExact(w: World, n: nat, head: string, now: int)
    ensures IsOwned(Classify(w, n, head, now)) <==>
              && n in w.issues && w.issues[n].Issue? && w.issues[n].open
              && |PullsOf(w, n)| == 1 && PullsOf(w, n)[0].head == head
              && (forall s :: s in SessionsOf(w, n) ==> !Live(s, now))
              && (w.issues[n].state == AwaitingLand
                 || (w.issues[n].state == Ready && HeldBy(w.refs, SalvageBranch(n, head), head)))
  {
  }

  // ----- one release

  lemma StillQuiet(w: World, n: nat, now: int, later: int)
    requires now <= later && !(exists s :: s in SessionsOf(w, n) && Live(s, now))
    ensures !(exists s :: s in SessionsOf(w, n) && Live(s, later))
  {
  }

  /** A call's durable writes are the preserving one, if the head is not preserved yet, and a prefix of the
      freeing ones. */
  lemma WrittenShape(w: World, repo: string, n: nat, head: string, pull: nat, blocker: string, fate: Fate)
    requires !SalvageTaken(w, n, head) && fate != ReadbackFails
    ensures var preserved := SalvageBranch(n, head); var freeing := FreeingPlan(repo, n, head, pull, blocker);
            ApplyAll(w, Written(w, repo, n, head, pull, blocker, fate)) ==
            if preserved in w.refs then ApplyAll(w, Cut(freeing, fate))
            else if fate == StopsAfter(0) then w
            else ApplyAll(Apply(w, CreateRef(preserved, head)), Cut(freeing, AfterOne(fate)))
  {
    var freeing := FreeingPlan(repo, n, head, pull, blocker);
    if SalvageBranch(n, head) in w.refs {
      assert Plan(w, repo, n, head, pull, blocker) == freeing;
    } else if fate != StopsAfter(0) {
      CutCons(w, CreateRef(SalvageBranch(n, head), head), freeing, fate);
    }
  }

  /** Freeing a preserved, owned claim: owned until the delete, freed from it on. */
  lemma FreeingStaysOwned(
    w: World, repo: string, n: nat, head: string, now: int, later: int, pull: nat, blocker: string, fate: Fate)
    requires IsHead(head) && Kept(w, repo, n, head, now) && now <= later && HeldBy(w.refs, SalvageBranch(n, head), head)
    requires !fate.ReadbackFails?
    ensures var after := ApplyAll(w, Cut(FreeingPlan(repo, n, head, pull, blocker), fate));
            && (ExecuteBranch(repo, n) in after.refs ==> Kept(after, repo, n, head, later))
            && (ExecuteBranch(repo, n) !in after.refs ==> Freed(after, repo, n, head))
            && (fate.Completes? ==> ExecuteBranch(repo, n) !in after.refs)
  {
    var branch := ExecuteBranch(repo, n);
    SalvageIsNoExecuteBranch(n, head, repo, n);
    StillQuiet(w, n, now, later);
    CutThree(w, SetReady(n), DeleteRef(branch),
             WriteReceipt(ReceiptPath(branch, head), ReceiptOf(repo, n, head, pull, blocker)), fate);
  }

  /** However a release is cut, the claim is still owned by the next snapshot if its ref is there, and
      otherwise its head is preserved and its issue ready. A release that is not cut frees it. */
  lemma ReleaseNeverLosesTheClaim(
    w: World, repo: string, n: nat, head: string, now: int, later: int, pull: nat, blocker: string, fate: Fate)
    requires IsHead(head) && Kept(w, repo, n, head, now) && now <= later
    ensures var after := ApplyAll(w, Written(w, repo, n, head, pull, blocker, fate));
            && (ExecuteBranch(repo, n) in after.refs ==> Kept(after, repo, n, head, later))
            && (ExecuteBranch(repo, n) !in after.refs ==> Freed(after, repo, n, head))
            && (fate.Completes? ==> (ExecuteBranch(repo, n) !in after.refs <==> !SalvageTaken(w, n, head)))
            && SalvageTaken(after, n, head) == SalvageTaken(w, n, head)
  {
    var preserved := SalvageBranch(n, head);
    StillQuiet(w, n, now, later);
    SalvageIsNoExecuteBranch(n, head, repo, n);
    if !SalvageTaken(w, n, head) && fate != ReadbackFails {
      WrittenShape(w, repo, n, head, pull, blocker, fate);
      if preserved in w.refs {
        FreeingStaysOwned(w, repo, n, head, now, later, pull, blocker, fate);
      } else if fate != StopsAfter(0) {
        var w1 := Apply(w, CreateRef(preserved, head));
        assert Kept(w1, repo, n, head, now);
        FreeingStaysOwned(w1, repo, n, head, now, later, pull, blocker, AfterOne(fate));
      }
    }
  }

  lemma TakenSalvageHoldsRelease(w: World, repo: string, n: nat, head: string, pull: nat, blocker: string, fate: Fate)
    requires SalvageTaken(w, n, head)
    ensures ApplyAll(w, Written(w, repo, n, head, pull, blocker, fate)) == w
  {
  }

  // ----- one claim does not touch another

  lemma NamesApart(repo: string, n: nat, head: string, m: nat, other: string)
    requires IsHead(head) && IsHead(other) && n != m
    ensures ExecuteBranch(repo, n) != ExecuteBranch(repo, m) && SalvageBranch(n, head) != SalvageBranch(m, other)
    ensures ExecuteBranch(repo, n) != SalvageBranch(m, other) && SalvageBranch(n, head) != ExecuteBranch(repo, m)
  {
    if ExecuteBranch(repo, n) == ExecuteBranch(repo, m) { ExecuteBranchInjective(repo, n, m); }
    if SalvageBranch(n, head) == SalvageBranch(m, other) { SalvageBranchInjective(n, head, m, other); }
    SalvageIsNoExecuteBranch(m, other, repo, n);
    SalvageIsNoExecuteBranch(n, head, repo, m);
  }

  /** An effect of releasing claim m. */
  ghost predicate Concerns(e: Effect, repo: string, m: nat, other: string) {
    match e
    case CreateRef(name, _) => name == SalvageBranch(m, other)
    case SetReady(k) => k == m
    case DeleteRef(name) => name == ExecuteBranch(repo, m)
    case WriteReceipt(_, _) => true
  }

  lemma {:induction false} EffectsKeepOthers(
    w: World, repo: string, n: nat, head: string, m: nat, other: string, es: seq<Effect>)
    requires IsHead(head) && IsHead(other) && n != m
    requires forall k :: 0 <= k < |es| ==> Concerns(es[k], repo, m, other)
    ensures SameAt(w, ApplyAll(w, es), repo, n, head)
  {
    if es == [] {
    } else {
      EffectsKeepOthers(w, repo, n, head, m, other, es[..|es| - 1]);
      NamesApart(repo, n, head, m, other);
      assert Concerns(es[|es| - 1], repo, m, other);
    }
  }

  lemma SweepOneKeepsOthers(w: World, repo: string, n: nat, head: string, r: Record, script: Script)
    requires IsHead(head) && IsHead(r.head) && r.number != n
    ensures SameAt(w, SweepOne(w, repo, r, script), repo, n, head)
  {
    if IsOwned(r.verdict) && !Adopts(r, script) {
      var es := Written(w, repo, r.number, r.head, r.verdict.pull, Blocker(r), script.fate);
      EffectsKeepOthers(w, repo, n, head, r.number, r.head, es);
    }
  }

  lemma SameAtKeepsStatus(v: World, w: World, repo: string, n: nat, head: string, now: int)
    requires SameAt(v, w, repo, n, head)
    ensures Kept(v, repo, n, head, now) <==> Kept(w, repo, n, head, now)
    ensures Freed(v, repo, n, head) <==> Freed(w, repo, n, head)
    ensures SalvageTaken(v, n, head) <==> SalvageTaken(w, n, head)
    ensures Classify(v, n, head, now) == Classify(w, n, head, now)
  {
  }

  // ----- one sweep

  /** The claim, once owned, is either still owned or freed. */
  ghost predicate Safe(w: World, repo: string, n: nat, head: string, now: int) {
    Kept(w, repo, n, head, now) || Freed(w, repo, n, head)
  }

  ghost predicate Numbered(records: seq<Record>) {
    && (forall k :: 0 <= k < |records| ==> IsHead(records[k].head))
    && forall k, l :: 0 <= k < l < |records| ==> records[k].number < records[l].number
  }

  lemma {:induction false} SweepSkips(
    w: World, repo: string, records: seq<Record>, script: nat -> Script, n: nat, head: string)
    requires IsHead(head) && Numbered(records) && forall k :: 0 <= k < |records| ==> records[k].number != n
    ensures SameAt(w, SweepAll(w, repo, records, script), repo, n, head)
  {
    if records == [] {
    } else {
      var before, last := records[..|records| - 1], records[|records| - 1];
      SweepSkips(w, repo, before, script, n, head);
      SweepOneKeepsOthers(SweepAll(w, repo, before, script), repo, n, head, last, script(last.number));
    }
  }

  /** A sweep handles a claim as if it were alone: every other record leaves it as it was. */
  lemma {:induction false} SweepActsAlone(
    w: World, repo: string, records: seq<Record>, script: nat -> Script, k: nat) returns (v: World)
    requires Numbered(records) && k < |records|
    ensures var r := records[k];
            && SameAt(w, v, repo, r.number, r.head)
            && SameAt(SweepOne(v, repo, r, script(r.number)), SweepAll(w, repo, records, script), repo,
               r.number, r.head)
  {
    var before, last, r := records[..|records| - 1], records[|records| - 1], records[k];
    v := SweepAll(w, repo, before, script);
    if k == |records| - 1 {
      SweepSkips(w, repo, before, script, r.number, r.head);
    } else {
      assert before[k] == r;
      SweepOneKeepsOthers(v, repo, r.number, r.head, last, script(last.number));
      v := SweepActsAlone(w, repo, before, script, k);
    }
  }

  lemma KeptLater(w: World, repo: string, n: nat, head: string, now: int, later: int)
    requires Kept(w, repo, n, head, now) && now <= later
    ensures Kept(w, repo, n, head, later)
  {
    StillQuiet(w, n, now, later);
  }

  lemma SnapshotIsNumbered(w: World, repo: string, now: int, records: seq<Record>, j: nat)
    requires WellFormed(w) && IsSnapshot(w, repo, now, records) && j <= |records|
    ensures Numbered(records[..j])
  {
    forall k | 0 <= k < j ensures IsHead(records[k].head) {
      assert IsRecordOf(w, repo, now, records[k]);
    }
  }

  /** One claim through one handled record. */
  lemma RecordKeepsClaimSafe(v: World, repo: string, r: Record, script: Script, now: int, later: int)
    requires IsHead(r.head) && Kept(v, repo, r.number, r.head, now) && now <= later
    requires r.verdict == Classify(v, r.number, r.head, now)
    ensures var after := SweepOne(v, repo, r, script);
            && Safe(after, repo, r.number, r.head, later)
            && (Freed(after, repo, r.number, r.head) || SalvageTaken(v, r.number, r.head)
                || Adopts(r, script) || !script.fate.Completes?)
  {
    if Adopts(r, script) {
      KeptLater(v, repo, r.number, r.head, now, later);
    } else {
      ReleaseNeverLosesTheClaim(v, repo, r.number, r.head, now, later, r.verdict.pull, Blocker(r), script.fate);
    }
  }

  /** A sweep cut after any number of claims, each release cut after any write, leaves every owned claim
      owned or freed and every freed claim freed. If the sweep handled the claim, adoption failed, the
      failed-run readback succeeded and nothing cut the release, the claim is freed exactly when its
      salvage name was not taken by another head. */
  lemma SweepKeepsClaimSafe(
    w: World, repo: string, now: int, records: seq<Record>, j: nat, script: nat -> Script, n: nat,
    head: string, later: int)
    requires WellFormed(w) && IsSnapshot(w, repo, now, records) && j <= |records|
    requires IsHead(head) && n > 0 && Safe(w, repo, n, head, now) && now <= later
    ensures var after := SweepAll(w, repo, records[..j], script);
            && Safe(after, repo, n, head, later)
            && (Freed(w, repo, n, head) ==> Freed(after, repo, n, head))
            && forall k :: 0 <= k < j && records[k].number == n
                 && !Adopts(records[k], script(n)) && script(n).fate.Completes?
                 ==> (Freed(after, repo, n, head) <==> !SalvageTaken(w, n, head))
  {
    var handled := records[..j];
    var after := SweepAll(w, repo, handled, script);
    SnapshotIsNumbered(w, repo, now, records, j);
    if k :| 0 <= k < j && records[k].number == n {
      assert IsRecordOf(w, repo, now, records[k]) && handled[k] == records[k];
      var v := SweepActsAlone(w, repo, handled, script, k);
      SameAtKeepsStatus(w, v, repo, n, head, now);
      RecordKeepsClaimSafe(v, repo, records[k], script(n), now, later);
      SameAtKeepsStatus(SweepOne(v, repo, records[k], script(n)), after, repo, n, head, later);
      if SalvageTaken(w, n, head) {
        if !Adopts(records[k], script(n)) {
          TakenSalvageHoldsRelease(v, repo, n, head, records[k].verdict.pull, Blocker(records[k]), script(n).fate);
        }
      }
    } else {
      SweepSkips(w, repo, handled, script, n, head);
      SameAtKeepsStatus(w, after, repo, n, head, now);
      if Kept(after, repo, n, head, now) { KeptLater(after, repo, n, head, now, later); }
    }
  }

  // ----- any run of sweeps

  datatype Call = Call(now: int, records: seq<Record>, handled: nat, script: nat -> Script)

  ghost predicate IsRun(repo: string, worlds: seq<World>, calls: seq<Call>) {
    && |worlds| == |calls| + 1
    && forall k {:trigger IsStep(repo, worlds, calls, k)} :: 0 <= k < |calls| ==> IsStep(repo, worlds, calls, k)
  }

  ghost predicate IsStep(repo: string, worlds: seq<World>, calls: seq<Call>, k: int)
    requires |worlds| == |calls| + 1 && 0 <= k < |calls|
  {
    && WellFormed(worlds[k]) && IsSnapshot(worlds[k], repo, calls[k].now, calls[k].records)
    && calls[k].handled <= |calls[k].records| && (k > 0 ==> calls[k - 1].now <= calls[k].now)
    && worlds[k + 1] == SweepAll(worlds[k], repo, calls[k].records[..calls[k].handled], calls[k].script)
  }

  /** The time of the call that meets world k, or of the last call. */
  function Clock(calls: seq<Call>, k: nat): int
    requires calls != [] && k <= |calls|
  {
    if k < |calls| then calls[k].now else calls[k - 1].now
  }

  lemma StepKeepsClaimSafe(repo: string, worlds: seq<World>, calls: seq<Call>, n: nat, head: string, k: nat)
    requires IsRun(repo, worlds, calls) && k < |calls|
    requires IsHead(head) && n > 0 && Safe(worlds[k], repo, n, head, Clock(calls, k))
    ensures Safe(worlds[k + 1], repo, n, head, Clock(calls, k + 1))
    ensures Freed(worlds[k], repo, n, head) ==> Freed(worlds[k + 1], repo, n, head)
  {
    assert IsStep(repo, worlds, calls, k);
    assert k + 1 < |calls| ==> IsStep(repo, worlds, calls, k + 1);
    var call := calls[k];
    SweepKeepsClaimSafe(worlds[k], repo, call.now, call.records, call.handled, call.script, n, head,
      Clock(calls, k + 1));
  }

  /** Over any run of sweeps, cut anywhere, a dead claim stays owned until it is freed. */
  lemma {:induction false} RunKeepsClaimSafe(
    repo: string, worlds: seq<World>, calls: seq<Call>, n: nat, head: string, k: nat)
    requires IsRun(repo, worlds, calls) && calls != [] && k <= |calls|
    requires IsHead(head) && n > 0 && Kept(worlds[0], repo, n, head, calls[0].now)
    ensures Safe(worlds[k], repo, n, head, Clock(calls, k))
  {
    if k == 0 {
    } else {
      RunKeepsClaimSafe(repo, worlds, calls, n, head, k - 1);
      StepKeepsClaimSafe(repo, worlds, calls, n, head, k - 1);
    }
  }

  /** And once freed it stays freed. */
  lemma {:induction false} FreedStaysFreed(
    repo: string, worlds: seq<World>, calls: seq<Call>, n: nat, head: string, i: nat, k: nat)
    requires IsRun(repo, worlds, calls) && calls != [] && i <= k <= |calls|
    requires IsHead(head) && n > 0 && Freed(worlds[i], repo, n, head)
    ensures Freed(worlds[k], repo, n, head)
    decreases k
  {
    if i == k {
    } else {
      FreedStaysFreed(repo, worlds, calls, n, head, i, k - 1);
      StepKeepsClaimSafe(repo, worlds, calls, n, head, k - 1);
    }
  }

  // ----- a claim that is never released

  /** A claim whose salvage name stands at another head comes out of every sweep as it went in. */
  lemma TakenSalvageHoldsSweep(
    w: World, repo: string, now: int, records: seq<Record>, j: nat, script: nat -> Script, n: nat, head: string)
    requires WellFormed(w) && IsSnapshot(w, repo, now, records) && j <= |records|
    requires IsHead(head) && HeldBy(w.refs, ExecuteBranch(repo, n), head) && SalvageTaken(w, n, head)
    ensures SameAt(w, SweepAll(w, repo, records[..j], script), repo, n, head)
  {
    var handled := records[..j];
    var after := SweepAll(w, repo, handled, script);
    SnapshotIsNumbered(w, repo, now, records, j);
    if k :| 0 <= k < j && records[k].number == n {
      assert IsRecordOf(w, repo, now, records[k]) && handled[k] == records[k];
      var v := SweepActsAlone(w, repo, handled, script, k);
      SameAtKeepsStatus(w, v, repo, n, head, now);
      if !Adopts(records[k], script(n)) && IsOwned(records[k].verdict) {
        TakenSalvageHoldsRelease(v, repo, n, head, records[k].verdict.pull, Blocker(records[k]), script(n).fate);
      }
      SameAtTrans(w, v, after, repo, n, head);
    } else {
      SweepSkips(w, repo, handled, script, n, head);
    }
  }

  lemma SameAtTrans(u: World, v: World, w: World, repo: string, n: nat, head: string)
    requires SameAt(u, v, repo, n, head) && SameAt(v, w, repo, n, head)
    ensures SameAt(u, w, repo, n, head)
  {
  }

  /** So over any run of sweeps, cut or not, adopted or not, it stays owned and is never freed: the sweep
      records it again for ever. With SweepKeepsClaimSafe: an owned claim can be released exactly when its
      salvage name is not taken. */
  lemma {:induction false} TakenSalvageHoldsForEver(
    repo: string, worlds: seq<World>, calls: seq<Call>, n: nat, head: string, k: nat)
    requires IsRun(repo, worlds, calls) && calls != [] && k <= |calls|
    requires IsHead(head) && Kept(worlds[0], repo, n, head, calls[0].now) && SalvageTaken(worlds[0], n, head)
    ensures SameAt(worlds[0], worlds[k], repo, n, head)
    ensures Kept(worlds[k], repo, n, head, Clock(calls, k)) && !Freed(worlds[k], repo, n, head)
  {
    if k == 0 {
    } else {
      TakenSalvageHoldsForEver(repo, worlds, calls, n, head, k - 1);
      assert IsStep(repo, worlds, calls, k - 1);
      assert k < |calls| ==> IsStep(repo, worlds, calls, k);
      var before, call := worlds[k - 1], calls[k - 1];
      SameAtKeepsStatus(worlds[0], before, repo, n, head, call.now);
      TakenSalvageHoldsSweep(before, repo, call.now, call.records, call.handled, call.script, n, head);
      SameAtTrans(worlds[0], before, worlds[k], repo, n, head);
      SameAtKeepsStatus(before, worlds[k], repo, n, head, call.now);
      KeptLater(worlds[k], repo, n, head, call.now, Clock(calls, k));
    }
  }

  function HeadEndingIn(c: char): string {
    "0123456789ab" + seq(28, _ => c)
  }

  /** An issue awaiting landing, its only PR at the claim head, and the salvage branch of an earlier release
      at another head that begins with the same twelve digits. */
  function CollidingWorld(repo: string, n: nat): World {
    var head := HeadEndingIn('0');
    World(map[ExecuteBranch(repo, n) := head, SalvageBranch(n, head) := HeadEndingIn('1')],
          map[n := Issue(true, AwaitingLand)], map[n := [Pull(1, head)]], map[], map[])
  }

  /** Such a world is well formed, and the claim in it is owned and can never be released. */
  lemma CollidingClaimIsHeld(repo: string, n: nat, now: int)
    ensures var w, head := CollidingWorld(repo, n), HeadEndingIn('0');
            WellFormed(w) && IsHead(head) && Kept(w, repo, n, head, now) && SalvageTaken(w, n, head)
  {
    var w, head, other := CollidingWorld(repo, n), HeadEndingIn('0'), HeadEndingIn('1');
    assert IsHead(head) && IsHead(other);
    assert head[39] != other[39];
    SalvageIsNoExecuteBranch(n, head, repo, n);
    assert PullsOf(w, n) == [Pull(1, head)];
  }
}
