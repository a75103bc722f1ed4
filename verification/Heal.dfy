/** Lossless heal of the control checkout on any commit DAG (noodles.py:4009-4047). */
module Heal {
  import opened Wrappers

  /** A commit names its tree and its parents, so commits with their histories are finite trees with sharing. */
  datatype Commit = Commit(tree: string, message: string, parents: seq<Commit>)

  // ----- reachability

  /** y is x or an ancestor of x. */
  predicate Reaches(x: Commit, y: Commit) {
    x == y || exists p | p in x.parents :: Reaches(p, y)
  }

  lemma {:induction false} ReachesTrans(x: Commit, y: Commit, z: Commit)
    requires Reaches(x, y) && Reaches(y, z)
    ensures Reaches(x, z)
    decreases x
  {
    if x == y {
    } else {
      var p :| p in x.parents && Reaches(p, y);
      ReachesTrans(p, y, z);
    }
  }

  /** A way up through parents. */
  ghost predicate Line(path: seq<Commit>) {
    path != [] && forall k :: 0 <= k < |path| - 1 ==> path[k + 1] in path[k].parents
  }

  ghost predicate LineTo(path: seq<Commit>, x: Commit, y: Commit) {
    Line(path) && path[0] == x && path[|path| - 1] == y
  }

  /** To be an ancestor is to be reached through parents. */
  lemma {:induction false} ReachesExact(x: Commit, y: Commit)
    ensures Reaches(x, y) <==> exists path: seq<Commit> :: LineTo(path, x, y)
    decreases x
  {
    if Reaches(x, y) {
      if x == y {
        assert LineTo([x], x, y);
      } else {
        var p :| p in x.parents && Reaches(p, y);
        ReachesExact(p, y);
        var path :| LineTo(path, p, y);
        assert LineTo([x] + path, x, y);
      }
    }
    if path: seq<Commit> :| LineTo(path, x, y) {
      if |path| > 1 {
        var rest := path[1..];
        assert rest[0] in x.parents;
        forall k | 0 <= k < |rest| - 1 ensures rest[k + 1] in rest[k].parents {
          assert path[k + 2] in path[k + 1].parents;
        }
        assert LineTo(rest, rest[0], y);
        ReachesExact(rest[0], y);
      }
    }
  }

  /** The commits `rev-list c` lists. */
  function Ancestors(c: Commit): (r: set<Commit>)
    ensures forall y :: y in r <==> Reaches(c, y)
    decreases c, 1
  {
    {c} + AncestorsOf(c.parents)
  }

  function AncestorsOf(ps: seq<Commit>): (r: set<Commit>)
    ensures forall y :: y in r <==> Reached(ps, y)
    decreases ps, 0
  {
    if ps == [] then {}
    else
      ReachedCons(ps);
      Ancestors(ps[0]) + AncestorsOf(ps[1..])
  }

  ghost predicate Reached(ps: seq<Commit>, y: Commit) {
    exists p :: p in ps && Reaches(p, y)
  }

  lemma ReachedCons(ps: seq<Commit>)
    requires ps != []
    ensures forall y :: Reached(ps, y) <==> Reaches(ps[0], y) || Reached(ps[1..], y)
  {
    forall y ensures Reached(ps, y) <==> Reaches(ps[0], y) || Reached(ps[1..], y) {
      if Reached(ps, y) {
        var p :| p in ps && Reaches(p, y);
        assert p == ps[0] || p in ps[1..];
      }
    }
  }

  predicate IsMerge(c: Commit) {
    |c.parents| > 1
  }

  /** `branch -r --contains c` lists something. */
  predicate Contained(tracking: map<string, Commit>, c: Commit) {
    exists b | b in tracking :: Reaches(tracking[b], c)
  }

  /** unsaved_content_commits. */
  function Unsaved(tracking: map<string, Commit>, provider: Commit, local: Commit): set<Commit> {
    set c | c in Ancestors(local) - Ancestors(provider) && !IsMerge(c) && !Contained(tracking, c)
  }

  /** The local head holds a commit that is no merge and that neither the provider head nor a tracking ref holds. */
  ghost predicate HasUnsaved(tracking: map<string, Commit>, provider: Commit, local: Commit) {
    exists c :: && Reaches(local, c) && !Reaches(provider, c) && |c.parents| <= 1
                && forall b :: b in tracking ==> !Reaches(tracking[b], c)
  }

  lemma UnsavedExact(tracking: map<string, Commit>, provider: Commit, local: Commit)
    ensures Unsaved(tracking, provider, local) != {} <==> HasUnsaved(tracking, provider, local)
  {
    if Unsaved(tracking, provider, local) != {} {
      var c :| c in Unsaved(tracking, provider, local);
      assert Reaches(local, c) && !Reaches(provider, c) && |c.parents| <= 1;
    }
    if HasUnsaved(tracking, provider, local) {
      var c :| && Reaches(local, c) && !Reaches(provider, c) && |c.parents| <= 1
               && forall b :: b in tracking ==> !Reaches(tracking[b], c);
      assert c in Unsaved(tracking, provider, local);
    }
  }

  /** Every content commit of `tip` is on some remote-tracking ref. */
  ghost predicate Saved(tracking: map<string, Commit>, tip: Commit) {
    forall c :: Reaches(tip, c) && !IsMerge(c) ==> Contained(tracking, c)
  }

  /** Tracking refs only move forward. */
  ghost predicate Advanced(before: map<string, Commit>, after: map<string, Commit>) {
    forall b :: b in before ==> b in after && Reaches(after[b], before[b])
  }

  /** With the provider head tracked, nothing is reported unsaved exactly when all content of the local head
      is on remote-tracking refs. */
  lemma NothingUnsavedIsSaved(tracking: map<string, Commit>, b: string, provider: Commit, local: Commit)
    requires b in tracking && tracking[b] == provider
    ensures Unsaved(tracking, provider, local) == {} <==> Saved(tracking, local)
  {
    if Unsaved(tracking, provider, local) == {} {
      forall c | Reaches(local, c) && !IsMerge(c) ensures Contained(tracking, c) {
        if Reaches(provider, c) {
          assert Reaches(tracking[b], c);
        } else {
          assert c in Ancestors(local) - Ancestors(provider);
          assert c !in Unsaved(tracking, provider, local);
        }
      }
    }
  }

  lemma TrackedIsSaved(tracking: map<string, Commit>, b: string, tip: Commit)
    requires b in tracking && Reaches(tracking[b], tip)
    ensures Saved(tracking, tip)
  {
    forall c | Reaches(tip, c) && !IsMerge(c) ensures Contained(tracking, c) {
      ReachesTrans(tracking[b], tip, c);
    }
  }

  /** Content saved once stays saved while tracking refs only move forward. */
  lemma SavedStaysSaved(before: map<string, Commit>, after: map<string, Commit>, tip: Commit)
    requires Saved(before, tip) && Advanced(before, after)
    ensures Saved(after, tip)
  {
    forall c | Reaches(tip, c) && !IsMerge(c) ensures Contained(after, c) {
      assert Contained(before, c);
      var b :| b in before && Reaches(before[b], c);
      ReachesTrans(after[b], before[b], c);
    }
  }

  ghost predicate OnlyChanges(before: map<string, Commit>, after: map<string, Commit>, name: string) {
    forall n :: n != name ==> (n in after <==> n in before) && (n in after ==> after[n] == before[n])
  }

  function SalvageRef(defaultBranch: string, stamp: string): string {
    "salvage-" + defaultBranch + "-" + stamp
  }

  predicate At(refs: map<string, Commit>, name: string, c: Commit) {
    name in refs && refs[name] == c
  }

  predicate Forwards(refs: map<string, Commit>, name: string, c: Commit) {
    name in refs ==> Reaches(c, refs[name])
  }

  /** The salvage push is accepted and read back as pushed. */
  predicate CanSalvage(head: Commit, remote: map<string, Commit>, name: string, meanwhile: Option<Commit>) {
    Forwards(remote, name, head) && (meanwhile.Some? ==> meanwhile.value == head)
  }

  /** The checkouts a heal that is not cut brings to the provider head. */
  predicate CanHeal(
    defaultBranch: string, branch: Option<string>, dirty: bool, head: Commit, tracking: map<string, Commit>,
    remote: map<string, Commit>, salvage: string, salvagePush: bool, meanwhile: Option<Commit>)
  {
    && branch == Some(defaultBranch) && !dirty
    && defaultBranch in remote && Forwards(tracking, defaultBranch, remote[defaultBranch])
    && var provider := remote[defaultBranch];
       var fetched := tracking[defaultBranch := provider];
       (Reaches(provider, head) || Unsaved(fetched, provider, head) == {}
        || (salvagePush && CanSalvage(head, remote, salvage, meanwhile)))
  }

  /** In the checkout's own terms: on the default branch, clean, behind nothing the fetch must rewind; and either
      the provider holds the local head, or all its content is saved, or a salvage push is allowed, is a fast-forward
      of the salvage ref, and is read back as pushed. */
  lemma CanHealExact(
    defaultBranch: string, branch: Option<string>, dirty: bool, head: Commit, tracking: map<string, Commit>,
    remote: map<string, Commit>, stamp: string, salvagePush: bool, meanwhile: Option<Commit>)
    ensures var salvage := "salvage-" + defaultBranch + "-" + stamp;
            CanHeal(defaultBranch, branch, dirty, head, tracking, remote, SalvageRef(defaultBranch, stamp), salvagePush,
                    meanwhile) <==>
              && branch == Some(defaultBranch) && !dirty && defaultBranch in remote
              && (defaultBranch in tracking ==> Reaches(remote[defaultBranch], tracking[defaultBranch]))
              && (|| Reaches(remote[defaultBranch], head)
                  || !HasUnsaved(tracking[defaultBranch := remote[defaultBranch]], remote[defaultBranch], head)
                  || (salvagePush && (salvage in remote ==> Reaches(head, remote[salvage]))
                      && (meanwhile == None || meanwhile == Some(head))))
  {
    if defaultBranch in remote {
      UnsavedExact(tracking[defaultBranch := remote[defaultBranch]], remote[defaultBranch], head);
    }
  }

  datatype Action = SalvagePush | LosslessReset | FastForward

  datatype Outcome = Healed(actions: seq<Action>, salvage: bool) | Refused | Died

  class Checkout {
    const defaultBranch: string
    /** The checked-out branch; None when HEAD is detached. */
    var branch: Option<string>
    var dirty: bool
    /** The commit HEAD names. */
    var head: Commit
    var tracking: map<string, Commit>
    /** The provider's own branches. */
    var remote: map<string, Commit>

    constructor (
      defaultBranch: string, branch: Option<string>, dirty: bool, head: Commit,
      tracking: map<string, Commit>, remote: map<string, Commit>)
      ensures this.defaultBranch == defaultBranch && this.branch == branch && this.dirty == dirty
      ensures this.head == head && this.tracking == tracking && this.remote == remote
    {
      this.defaultBranch, this.branch, this.dirty := defaultBranch, branch, dirty;
      this.head, this.tracking, this.remote := head, tracking, remote;
    }

    /** A fetch without `+`: a tracking ref moves to the provider's commit only if that is a fast-forward. */
    method Fetch(name: string) returns (ok: bool)
      modifies this`tracking
      ensures ok <==> name in remote && (name in old(tracking) ==> Reaches(remote[name], old(tracking)[name]))
      ensures ok ==> tracking == old(tracking)[name := remote[name]]
      ensures !ok ==> tracking == old(tracking)
      ensures Advanced(old(tracking), tracking)
    {
      ok := name in remote && (name in tracking ==> Reaches(remote[name], tracking[name]));
      if ok {
        tracking := tracking[name := remote[name]];
      }
    }

    /** A push without force, which sets the tracking ref to what it pushed, forward or not; `meanwhile` is where
        others move the pushed ref before it is read back. */
    method Push(name: string, c: Commit, meanwhile: Option<Commit>) returns (ok: bool)
      modifies this`tracking, this`remote
      ensures ok <==> Forwards(old(remote), name, c)
      ensures ok ==> tracking == old(tracking)[name := c]
      ensures ok ==> remote == old(remote)[name := if meanwhile.Some? then meanwhile.value else c]
      ensures !ok ==> tracking == old(tracking) && remote == old(remote)
    {
      ok := Forwards(remote, name, c);
      if ok {
        tracking := tracking[name := c];
        remote := remote[name := if meanwhile.Some? then meanwhile.value else c];
      }
    }

    /** The salvage branch of a diverged checkout, dying between the push and its fetch if `dies`. */
    method Salvage(name: string, meanwhile: Option<Commit>, dies: bool) returns (ok: bool)
      modifies this`tracking, this`remote
      ensures ok <==> !dies && CanSalvage(head, old(remote), name, meanwhile)
      ensures ok ==> tracking == old(tracking)[name := head] && remote == old(remote)[name := head]
      ensures Forwards(old(remote), name, head) ==> name in tracking && Reaches(tracking[name], head)
      ensures !Forwards(old(remote), name, head) ==> tracking == old(tracking) && remote == old(remote)
      ensures OnlyChanges(old(tracking), tracking, name) && OnlyChanges(old(remote), remote, name)
    {
      var pushed := Push(name, head, meanwhile);
      if !pushed || dies { return false; }
      var fetched := Fetch(name);
      ok := fetched && tracking[name] == head;
    }

    /** `update-ref` and `reset --hard`: between them HEAD has moved and the working tree has not, which shows as
        dirt unless the two trees are the same. */
    method Reset(provider: Commit, dies: bool)
      requires !dirty
      modifies this`head, this`dirty
      ensures head == provider
      ensures dirty <==> dies && old(head).tree != provider.tree
    {
      dirty := head.tree != provider.tree;
      head := provider;
      if !dies {
        dirty := false;
      }
    }

    /** The reset of a diverged checkout to the provider head, its content saved first. */
    method Realign(provider: Commit, salvageName: string, salvagePush: bool, meanwhile: Option<Commit>, cut: nat)
      returns (outcome: Outcome)
      requires !dirty && At(tracking, defaultBranch, provider) && salvageName != defaultBranch
      modifies this`head, this`dirty, this`tracking, this`remote
      ensures head == old(head) || Saved(tracking, old(head))
      ensures OnlyChanges(old(tracking), tracking, salvageName)
      ensures Forwarded(old(tracking), tracking, salvageName, old(head))
      ensures !salvagePush ==> tracking == old(tracking)
      ensures outcome == Refused ==> head == old(head) && !dirty
      ensures dirty ==> outcome == Died && head != old(head)
      ensures outcome.Healed? ==>
                var unsaved := HasUnsaved(old(tracking), provider, old(head));
                && head == provider && !dirty && Saved(tracking, old(head)) && (unsaved ==> salvagePush)
                && outcome == Healed(if unsaved then [SalvagePush, LosslessReset] else [LosslessReset], unsaved)
                && tracking == (if unsaved then old(tracking)[salvageName := old(head)] else old(tracking))
                && remote == (if unsaved then old(remote)[salvageName := old(head)] else old(remote))
      ensures cut > 5 ==> (outcome.Healed? <==>
        || Unsaved(old(tracking), provider, old(head)) == {}
        || (salvagePush && CanSalvage(old(head), old(remote), salvageName, meanwhile)))
    {
      var local, salvaged := head, false;
      UnsavedExact(tracking, provider, local);
      if Unsaved(tracking, provider, local) != {} {
        if !salvagePush { return Refused; }
        if cut == 1 { return Died; }
        salvaged := Salvage(salvageName, meanwhile, cut == 2);
        if !salvaged { return if cut == 2 then Died else Refused; }
        TrackedIsSaved(tracking, salvageName, local);
      } else {
        NothingUnsavedIsSaved(tracking, defaultBranch, provider, local);
      }
      if cut == 3 { return Died; }
      Reset(provider, cut == 4);
      if cut == 4 { return Died; }
      outcome := Healed(if salvaged then [SalvagePush, LosslessReset] else [LosslessReset], salvaged);
    }

    /** heal_control_checkout up to its head readback, dying before step `cut` (0: the fetch, 1: the salvage push,
        2: its fetch, 3: the ref update, 4: the reset, 5: the fast-forward).
        Lossless at every exit: each content commit of the old HEAD is still under HEAD or a tracking ref, and
        tracking refs move forward, but for the salvage ref, which a push sets to the old HEAD. */
    method HealHead(stamp: string, salvagePush: bool, meanwhile: Option<Commit>, cut: nat) returns (outcome: Outcome)
      modifies this`head, this`dirty, this`tracking, this`remote
      ensures head == old(head) || Saved(tracking, old(head))
      ensures Advanced(old(tracking) - {SalvageRef(defaultBranch, stamp)}, tracking)
      ensures Forwarded(old(tracking), tracking, SalvageRef(defaultBranch, stamp), old(head))
      ensures !salvagePush ==> Advanced(old(tracking), tracking)
      ensures outcome.Healed? ==>
              Saved(tracking, old(head)) && At(remote, defaultBranch, head) && At(tracking, defaultBranch, head)
      ensures outcome.Healed? ==> branch == Some(defaultBranch) && !dirty
      ensures dirty != old(dirty) ==> dirty && outcome == Died && head != old(head)
      ensures outcome == Refused ==> head == old(head) && dirty == old(dirty)
      ensures outcome.Healed? ==>
                var unsaved := HasUnsaved(old(tracking)[defaultBranch := head], head, old(head));
                && outcome.actions == (if head == old(head) then [] else if Reaches(head, old(head)) then [FastForward]
                                       else if unsaved then [SalvagePush, LosslessReset] else [LosslessReset])
                && (outcome.salvage <==> !Reaches(head, old(head)) && unsaved)
      ensures outcome.Healed? ==>
                var salvage := SalvageRef(defaultBranch, stamp); var fetched := old(tracking)[defaultBranch := head];
                && tracking == (if outcome.salvage then fetched[salvage := old(head)] else fetched)
                && remote == (if outcome.salvage then old(remote)[salvage := old(head)] else old(remote))
      ensures cut > 5 ==> (outcome.Healed? <==>
        CanHeal(defaultBranch, branch, old(dirty), old(head), old(tracking), old(remote),
                SalvageRef(defaultBranch, stamp), salvagePush, meanwhile))
      ensures old(dirty) ==> !outcome.Healed? && head == old(head) && tracking == old(tracking) && remote == old(remote)
      ensures !salvagePush && outcome.Healed? ==> !outcome.salvage
    {
      var salvageName := SalvageRef(defaultBranch, stamp);
      assert |salvageName| > |defaultBranch|;
      if branch != Some(defaultBranch) || dirty || cut == 0 {
        return if cut == 0 then Died else Refused;
      }
      ghost var tracked := tracking;
      var fetched := Fetch(defaultBranch);
      if !fetched { return Refused; }
      var local, provider := head, tracking[defaultBranch];
      var actions: seq<Action> := [];
      var salvaged := false;
      if local != provider && !Reaches(provider, local) {
        ghost var between := tracking;
        outcome := Realign(provider, salvageName, salvagePush, meanwhile, cut);
        AdvancedBeside(tracked, between, tracking, salvageName);
        if !outcome.Healed? { return; }
        actions, salvaged := outcome.actions, outcome.salvage;
      }
      if head != provider {
        if cut == 5 { return Died; }
        TrackedIsSaved(tracking, defaultBranch, local);
        head := provider;
        actions := actions + [FastForward];
      }
      if local == provider { TrackedIsSaved(tracking, defaultBranch, local); }
      outcome := Healed(actions, salvaged);
    }
  }

  /** A ref only moves forward, or to this commit or beyond. */
  ghost predicate Forwarded(before: map<string, Commit>, after: map<string, Commit>, name: string, c: Commit) {
    name in before ==> name in after && (Reaches(after[name], before[name]) || Reaches(after[name], c))
  }

  lemma AdvancedBeside(a: map<string, Commit>, b: map<string, Commit>, c: map<string, Commit>, name: string)
    requires Advanced(a, b) && OnlyChanges(b, c, name)
    ensures Advanced(a - {name}, c)
  {
    forall n | n in a - {name} ensures n in c && Reaches(c[n], a[n]) {
      assert n in a && n != name;
    }
  }
}
