/** The content-addressed three-member batch (verified_batch.py:63-170). */
module VerifiedBatch {
  import opened Wrappers
  import opened Text

  type Id = string

  datatype Object = CommitObject(tree: Id, parents: seq<Id>, message: string)

  datatype Member = Member(pr: int, head: Id)

  datatype Integration = Integration(position: nat, pr: int, head: Id, commit: Id, tree: Id, parents: seq<Id>)

  datatype Manifest = Manifest(schema: nat, base: Id, members: seq<Member>, integrations: seq<Integration>, batch: Id)

  const SCHEMA_VERSION := 1

  const MEMBER_COUNT := 3

  /** How the repository names objects, and what merge-tree answers for two commits. */
  datatype Git = Git(oid: Object -> Id, mergeTree: (Id, Id) -> Option<Id>)

  ghost predicate Injective(oid: Object -> Id) {
    forall x, y :: oid(x) == oid(y) ==> x == y
  }

  /** One numbered line of a message, and what follows it. */
  function Line(title: string, n: nat, rest: string): string {
    title + (Decimal(n) + "\n" + rest)
  }

  function Message(position: nat, member: Member): string
    requires member.pr > 0
  {
    Line("noodles verified batch v1\n\nposition ", position, Line("pr ", member.pr, "head " + member.head + "\n"))
  }

  // ----- the batch a base and its ordered members determine

  datatype Chain = Chain(integrations: seq<Integration>, current: Id)

  /** The integrations of the members so far, each committed on top of the one before. */
  function Build(git: Git, base: Id, members: seq<Member>): Option<Chain>
    requires forall k :: 0 <= k < |members| ==> members[k].pr > 0
  {
    if members == [] then Some(Chain([], base))
    else
      var n := |members| - 1;
      var before := Build(git, base, members[..n]);
      if before.None? then None
      else
        var tree := git.mergeTree(before.value.current, members[n].head);
        if tree.None? then None
        else Some(Extend(git, before.value, n + 1, members[n], tree.value))
  }

  /** What commit-tree keeps of two parents: one named twice is kept once. */
  function Parents(first: Id, second: Id): seq<Id> {
    if first == second then [first] else [first, second]
  }

  function ObjectOf(current: Id, position: nat, member: Member, tree: Id): Object
    requires member.pr > 0
  {
    CommitObject(tree, Parents(current, member.head), Message(position, member))
  }

  function Extend(git: Git, chain: Chain, position: nat, member: Member, tree: Id): Chain
    requires member.pr > 0
  {
    var commit := git.oid(ObjectOf(chain.current, position, member, tree));
    Chain(chain.integrations
      + [Integration(position, member.pr, member.head, commit, tree, [chain.current, member.head])], commit)
  }

  /** _members: exactly three, positive distinct PR numbers, distinct heads that are commits here. */
  predicate Admissible(store: map<Id, Object>, members: seq<Member>) {
    && |members| == MEMBER_COUNT
    && (forall k :: 0 <= k < |members| ==> members[k].pr > 0 && members[k].head in store)
    && forall i, j :: 0 <= i < j < |members| ==> members[i].pr != members[j].pr && members[i].head != members[j].head
  }

  function Construct(git: Git, store: map<Id, Object>, base: Id, members: seq<Member>): Option<Manifest> {
    if base !in store || !Admissible(store, members) then None
    else
      var chain := Build(git, base, members);
      if chain.None? then None
      else Some(Manifest(SCHEMA_VERSION, base, members, chain.value.integrations, chain.value.current))
  }

  /** The integration's commit is here, on the parents commit-tree keeps and with its tree. */
  predicate In(store: map<Id, Object>, i: Integration) {
    && i.commit in store && store[i.commit].tree == i.tree
    && |i.parents| == 2 && store[i.commit].parents == Parents(i.parents[0], i.parents[1])
  }

  /** No integration merges a head onto that same commit. */
  predicate Merging(integrations: seq<Integration>) {
    forall k :: 0 <= k < |integrations| ==> |integrations[k].parents| == 2 && Merges(integrations[k].parents)
  }

  predicate Merges(parents: seq<Id>)
    requires |parents| == 2
  {
    parents[0] != parents[1]
  }

  ghost predicate Kept(before: map<Id, Object>, after: map<Id, Object>) {
    forall id :: id in before ==> id in after && after[id] == before[id]
  }

  lemma BuildStep(git: Git, base: Id, members: seq<Member>, k: nat)
    requires forall i :: 0 <= i < |members| ==> members[i].pr > 0
    requires k < |members| && Build(git, base, members[..k]).Some?
    ensures var chain := Build(git, base, members[..k]).value;
            var tree := git.mergeTree(chain.current, members[k].head);
            Build(git, base, members[..k + 1]) == if tree.None? then None
              else Some(Extend(git, chain, k + 1, members[k], tree.value))
  {
    assert members[..k + 1][..k] == members[..k];
  }

  /** Integration k commits member k at position k + 1 on top of the integration before it, or of the base. */
  ghost predicate Links(git: Git, base: Id, members: seq<Member>, integrations: seq<Integration>, k: nat)
    requires k < |members| && k < |integrations|
  {
    var i, below := integrations[k], if k == 0 then base else integrations[k - 1].commit;
    && i.position == k + 1 && i.pr == members[k].pr > 0 && i.head == members[k].head
    && i.parents == [below, members[k].head] && git.mergeTree(below, members[k].head) == Some(i.tree)
    && i.commit == git.oid(CommitObject(i.tree, if below == i.head then [below] else [below, i.head],
                                        CommitText(k + 1, i.pr, i.head)))
  }

  /** The message of an integration's commit. */
  ghost function CommitText(position: nat, pr: nat, head: Id): string {
    "noodles verified batch v1\n\nposition " + Decimal(position) + "\npr " + Decimal(pr) + "\nhead " + head + "\n"
  }

  lemma MessageText(position: nat, member: Member)
    requires member.pr > 0
    ensures Message(position, member) == CommitText(position, member.pr, member.head)
  {
    var title, p, q := "noodles verified batch v1\n\nposition ", Decimal(position), Decimal(member.pr);
    LineLiterals();
    Flat(title, p, "\n", "pr ", q, "\n", "head ", member.head, "\n");
  }

  lemma LineLiterals()
    ensures "\npr " == "\n" + "pr " && "\nhead " == "\n" + "head "
  {
  }

  lemma Flat(t: string, p: string, n: string, u: string, q: string, m: string, v: string, h: string, l: string)
    ensures t + (p + n + (u + (q + m + (v + h + l)))) == t + p + (n + u) + q + (m + v) + h + l
  {
  }

  lemma {:induction false} BuildIsChain(git: Git, base: Id, members: seq<Member>)
    requires forall k :: 0 <= k < |members| ==> members[k].pr > 0
    requires Build(git, base, members).Some?
    ensures var chain := Build(git, base, members).value;
            && |chain.integrations| == |members|
            && (forall k :: 0 <= k < |members| ==> Links(git, base, members, chain.integrations, k))
            && chain.current == if members == [] then base else chain.integrations[|members| - 1].commit
  {
    if members == [] {
    } else {
      var n := |members| - 1;
      BuildIsChain(git, base, members[..n]);
      var before, after :=
        Build(git, base, members[..n]).value.integrations, Build(git, base, members).value.integrations;
      MessageText(n + 1, members[n]);
      forall k | 0 <= k < |members| ensures Links(git, base, members, after, k) {
        if k < n { assert Links(git, base, members[..n], before, k); }
      }
    }
  }

  /** The manifest of three known members with distinct PRs and heads, chained in order from the base to the batch. */
  ghost predicate IsManifest(git: Git, store: map<Id, Object>, base: Id, members: seq<Member>, m: Manifest) {
    && m == Manifest(1, base, members, m.integrations, m.batch) && base in store
    && |members| == |m.integrations| == 3 && m.batch == m.integrations[2].commit
    && (forall k :: 0 <= k < 3 ==> Links(git, base, members, m.integrations, k) && members[k].head in store)
    && forall i, j :: 0 <= i < j < 3 ==> members[i].pr != members[j].pr && members[i].head != members[j].head
  }

  lemma ManifestIsChain(git: Git, store: map<Id, Object>, base: Id, members: seq<Member>)
    requires Construct(git, store, base, members).Some?
    ensures IsManifest(git, store, base, members, Construct(git, store, base, members).value)
  {
    BuildIsChain(git, base, members);
  }

  /** A chain from the base is the one its members build. */
  lemma {:induction false} ChainIsBuilt(git: Git, base: Id, members: seq<Member>, integrations: seq<Integration>)
    requires |members| == |integrations|
    requires forall k :: 0 <= k < |members| ==> Links(git, base, members, integrations, k)
    ensures forall k :: 0 <= k < |members| ==> members[k].pr > 0
    ensures Build(git, base, members) ==
            Some(Chain(integrations, if members == [] then base else integrations[|members| - 1].commit))
  {
    forall k | 0 <= k < |members| ensures members[k].pr > 0 { assert Links(git, base, members, integrations, k); }
    if members == [] {
    } else {
      var n := |members| - 1;
      forall k | 0 <= k < n ensures Links(git, base, members[..n], integrations[..n], k) {
        assert Links(git, base, members, integrations, k);
      }
      ChainIsBuilt(git, base, members[..n], integrations[..n]);
      assert Links(git, base, members, integrations, n);
      MessageText(n + 1, members[n]);
      assert integrations == integrations[..n] + [integrations[n]];
    }
  }

  /** A base and its members construct exactly the manifest that chains them. */
  lemma ConstructExact(git: Git, store: map<Id, Object>, base: Id, members: seq<Member>, m: Manifest)
    ensures Construct(git, store, base, members) == Some(m) <==> IsManifest(git, store, base, members, m)
  {
    if Construct(git, store, base, members) == Some(m) { ManifestIsChain(git, store, base, members); }
    if IsManifest(git, store, base, members, m) { ChainIsBuilt(git, base, members, m.integrations); }
  }

  /** A manifest merges throughout exactly when no member's head is the commit below it. */
  lemma MergingExact(git: Git, store: map<Id, Object>, base: Id, members: seq<Member>)
    requires Construct(git, store, base, members).Some?
    ensures var integrations := Construct(git, store, base, members).value.integrations;
            && |integrations| == 3
            && (Merging(integrations) <==>
                && members[0].head != base && members[1].head != integrations[0].commit
                && members[2].head != integrations[1].commit)
  {
    ManifestIsChain(git, store, base, members);
    var integrations := Construct(git, store, base, members).value.integrations;
    assert Links(git, base, members, integrations, 0) && Links(git, base, members, integrations, 1);
    assert Links(git, base, members, integrations, 2);
  }

  /** A batch whose first head is its own base is constructed, and its manifest does not merge throughout. */
  lemma BaseAsHead(git: Git, store: map<Id, Object>, base: Id, second: Id, third: Id)
    requires base in store && second in store && third in store
    requires base != second && base != third && second != third
    requires forall a, b :: git.mergeTree(a, b).Some?
    ensures var r := Construct(git, store, base, [Member(1, base), Member(2, second), Member(3, third)]);
            r.Some? && !Merging(r.value.integrations)
  {
    var members := [Member(1, base), Member(2, second), Member(3, third)];
    AlwaysBuilds(git, base, members);
    MergingExact(git, store, base, members);
  }

  lemma {:induction false} AlwaysBuilds(git: Git, base: Id, members: seq<Member>)
    requires forall a, b :: git.mergeTree(a, b).Some?
    requires forall k :: 0 <= k < |members| ==> members[k].pr > 0
    ensures Build(git, base, members).Some?
  {
    if members == [] {
    } else {
      AlwaysBuilds(git, base, members[..|members| - 1]);
    }
  }

  class Repository {
    const git: Git
    /** The objects the repository holds. */
    var store: map<Id, Object>

    ghost predicate Valid()
      reads this
    {
      forall id :: id in store ==> git.oid(store[id]) == id
    }

    constructor (git: Git, store: map<Id, Object>)
      requires forall id :: id in store ==> git.oid(store[id]) == id
      ensures Valid() && this.git == git && this.store == store
    {
      this.git, this.store := git, store;
    }

    /** The manifest's own integrations are in the store. */
    ghost predicate Holds(integrations: seq<Integration>)
      reads this
    {
      forall k :: 0 <= k < |integrations| ==> In(store, integrations[k])
    }

    /** `git rev-list --parents` and `git show`: the parents and the tree of the commit are the integration's. */
    predicate Readback(i: Integration)
      reads this
    {
      i.commit in store && store[i.commit].parents == i.parents && store[i.commit].tree == i.tree
    }

    /** `git commit-tree`: writes the commit's object under its name. */
    method CommitTree(position: nat, current: Id, member: Member, tree: Id) returns (i: Integration)
      requires Valid() && Injective(git.oid) && member.pr > 0
      modifies this`store
      ensures Valid() && Kept(old(store), store) && In(store, i)
      ensures i ==
              Integration(position, member.pr, member.head, git.oid(ObjectOf(current, position, member, tree)), tree,
                [current, member.head])
    {
      var commit := ObjectOf(current, position, member, tree);
      var candidate := git.oid(commit);
      store := store[candidate := commit];
      i := Integration(position, member.pr, member.head, candidate, tree, [current, member.head]);
    }

    lemma HoldsStill(before: map<Id, Object>, integrations: seq<Integration>, i: Integration)
      requires Kept(before, store) && In(store, i)
      requires forall k :: 0 <= k < |integrations| ==> In(before, integrations[k])
      ensures Holds(integrations + [i])
    {
      forall k | 0 <= k < |integrations| ensures In(store, integrations[k]) {
        assert In(before, integrations[k]);
      }
    }

    /** construct_batch: writes objects, moves no ref. */
    method ConstructBatch(base: Id, members: seq<Member>) returns (r: Option<Manifest>)
      requires Valid() && Injective(git.oid)
      modifies this`store
      ensures Valid() && Kept(old(store), store)
      ensures r == Construct(git, old(store), base, members)
      ensures r.Some? ==> Holds(r.value.integrations)
    {
      if base !in store || !Admissible(store, members) {
        return None;
      }
      var current := base;
      var integrations: seq<Integration> := [];
      for k := 0 to |members|
        invariant Valid() && Kept(old(store), store)
        invariant Build(git, base, members[..k]) == Some(Chain(integrations, current))
        invariant Holds(integrations)
      {
        BuildStep(git, base, members, k);
        var tree := git.mergeTree(current, members[k].head);
        if tree.None? {
          BuildStops(git, base, members, k + 1);
          return None;
        }
        ghost var before := store;
        var i := CommitTree(k + 1, current, members[k], tree.value);
        HoldsStill(before, integrations, i);
        integrations, current := integrations + [i], i.commit;
      }
      assert members[..|members|] == members;
      r := Some(Manifest(SCHEMA_VERSION, base, members, integrations, current));
    }

    /** verify_candidate_identity accepts a manifest exactly when construct_batch of its base and members is it
        and none of its members' heads is the commit it is merged onto. */
    method VerifyCandidateIdentity(manifest: Manifest) returns (ok: bool)
      requires Valid() && Injective(git.oid)
      modifies this`store
      ensures Valid() && Kept(old(store), store)
      ensures ok <==> Construct(git, old(store), manifest.base, manifest.members) == Some(manifest)
                      && Merging(manifest.integrations)
    {
      if manifest.schema != SCHEMA_VERSION {
        return false;
      }
      var reconstructed := ConstructBatch(manifest.base, manifest.members);
      if reconstructed != Some(manifest) {
        return false;
      }
      for k := 0 to |manifest.integrations|
        invariant forall i :: 0 <= i < k ==> Merges(manifest.integrations[i].parents)
      {
        assert In(store, manifest.integrations[k]);
        if !Readback(manifest.integrations[k]) {
          return false;
        }
      }
      ok := true;
    }
  }

  lemma {:induction false} BuildStops(git: Git, base: Id, members: seq<Member>, k: nat)
    requires forall i :: 0 <= i < |members| ==> members[i].pr > 0
    requires k <= |members| && Build(git, base, members[..k]).None?
    ensures Build(git, base, members).None?
    decreases |members| - k
  {
    if k < |members| {
      assert members[..k + 1][..k] == members[..k];
      BuildStops(git, base, members, k + 1);
    } else {
      assert members[..k] == members;
    }
  }

  // ----- the batch id commits to everything

  lemma FirstLine(a: string, x: string, b: string, y: string)
    requires '\n' !in a && '\n' !in b && a + "\n" + x == b + "\n" + y
    ensures a == b && x == y
  {
    SplitConcat(a, x, '\n');
    SplitConcat(b, y, '\n');
    assert ([a] + Split(x, '\n'))[0] == ([b] + Split(y, '\n'))[0];
    assert x == (a + "\n" + x)[|a| + 1..] && y == (b + "\n" + y)[|b| + 1..];
  }

  lemma LineInjective(title: string, m: nat, x: string, n: nat, y: string)
    requires Line(title, m, x) == Line(title, n, y)
    ensures m == n && x == y
  {
    var a, b := Decimal(m) + "\n" + x, Decimal(n) + "\n" + y;
    assert a == (title + a)[|title|..] && b == (title + b)[|title|..];
    DecimalIsOneLine(m);
    DecimalIsOneLine(n);
    FirstLine(Decimal(m), x, Decimal(n), y);
    DecimalInjective(m, n);
  }

  lemma DecimalIsOneLine(n: nat)
    ensures '\n' !in Decimal(n)
  {
    forall k | 0 <= k < |Decimal(n)| ensures Decimal(n)[k] != '\n' {
      assert IsDigit(Decimal(n)[k]);
    }
  }

  lemma MessageInjective(p: nat, m: Member, q: nat, n: Member)
    requires m.pr > 0 && n.pr > 0 && Message(p, m) == Message(q, n)
    ensures p == q && m == n
  {
    var x, y := "head " + m.head + "\n", "head " + n.head + "\n";
    LineInjective("noodles verified batch v1\n\nposition ", p, Line("pr ", m.pr, x), q, Line("pr ", n.pr, y));
    LineInjective("pr ", m.pr, x, n.pr, y);
    Framed("head ", m.head, "\n", n.head, "\n");
  }

  /** Chains of any length that end in one commit have the same base, members, order, PR numbers and trees,
      whatever merge-tree answered in either repository. */
  lemma {:induction false} ChainCommitsToHistory(g: Git, h: Git, base: Id, other: Id, ms: seq<Member>, ns: seq<Member>)
    requires Injective(g.oid) && g.oid == h.oid && ms != [] && ns != []
    requires forall k :: 0 <= k < |ms| ==> ms[k].pr > 0
    requires forall k :: 0 <= k < |ns| ==> ns[k].pr > 0
    requires Build(g, base, ms).Some? && Build(h, other, ns).Some?
    requires Build(g, base, ms).value.current == Build(h, other, ns).value.current
    ensures base == other && ms == ns && Build(g, base, ms) == Build(h, other, ns)
  {
    var i, j := |ms| - 1, |ns| - 1;
    var a, b := Build(g, base, ms[..i]).value, Build(h, other, ns[..j]).value;
    var t, u := g.mergeTree(a.current, ms[i].head).value, h.mergeTree(b.current, ns[j].head).value;
    var x, y := ObjectOf(a.current, i + 1, ms[i], t), ObjectOf(b.current, j + 1, ns[j], u);
    assert g.oid(x) == h.oid(y);
    assert x.parents[0] == y.parents[0];
    MessageInjective(i + 1, ms[i], j + 1, ns[j]);
    if i == 0 {
    } else {
      ChainCommitsToHistory(g, h, base, other, ms[..i], ns[..j]);
    }
    assert ms == ms[..i] + [ms[i]] && ns == ns[..j] + [ns[j]];
  }

  /** Equal batch ids mean equal manifests. */
  lemma BatchIdIdentifiesManifest(
    g: Git, h: Git, s: map<Id, Object>, t: map<Id, Object>, base: Id, other: Id, ms: seq<Member>, ns: seq<Member>)
    requires Injective(g.oid) && g.oid == h.oid
    requires Construct(g, s, base, ms).Some? && Construct(h, t, other, ns).Some?
    requires Construct(g, s, base, ms).value.batch == Construct(h, t, other, ns).value.batch
    ensures Construct(g, s, base, ms) == Construct(h, t, other, ns)
  {
    ChainCommitsToHistory(g, h, base, other, ms, ns);
  }
}
