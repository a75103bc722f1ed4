/** Which diagnostic the exact parser raises first, and what each cure writes, said of the marker values alone
    (noodles.py:302-361, noodles.py:3376-3412, issue_contract.py:881-897). */
module IntakeExact {
  import opened Wrappers
  import opened Ordering
  import opened Text
  import opened Prose
  import opened Intake
  import Dependencies

  // ----- markers and subjects

  function ValueAt(marks: seq<Mark>, name: Name, k: nat): Option<string> {
    if k < |marks| && marks[k].name == name then Some(marks[k].value) else None
  }

  lemma ValuesNext(marks: seq<Mark>, name: Name)
    requires marks != []
    ensures var n := |marks| - 1;
            Values(marks, name) ==
            Values(marks[..n], name) + (if marks[n].name == name then [marks[n].value] else [])
  {
    var n := |marks| - 1;
    ValuesConcat(marks[..n], [marks[n]], name);
    assert marks == marks[..n] + [marks[n]] && [marks[n]][1..] == [];
  }

  /** The values of a name, in the order of its markers. */
  lemma {:induction false} ValuesExact(marks: seq<Mark>, name: Name)
    ensures Picks(|marks|, (k: nat) => ValueAt(marks, name, k), Values(marks, name))
  {
    var pick := (k: nat) => ValueAt(marks, name, k);
    if marks == [] {
      PicksNothing(pick);
    } else {
      var n := |marks| - 1;
      ValuesExact(marks[..n], name);
      PicksNext(n, (k: nat) => ValueAt(marks[..n], name, k), pick, Values(marks[..n], name));
      ValuesNext(marks, name);
    }
  }

  /** A subject is an owner, a repository and a number without leading zero. */
  ghost predicate SubjectOf(s: string, owner: string, repo: string, number: string) {
    && s == owner + "/" + repo + "#" + number
    && Dependencies.IsName(owner) && Dependencies.IsName(repo)
    && number != "" && '1' <= number[0] <= '9' && forall k :: 0 <= k < |number| ==> '0' <= number[k] <= '9'
  }

  lemma NameLacks(s: string, c: char)
    requires Dependencies.IsName(s) && (c == '/' || c == '#')
    ensures c !in s
  {
    forall k | 0 <= k < |s| ensures s[k] != c { assert Dependencies.IsNameChar(s[k]); }
  }

  lemma SubjectSplits(s: string, owner: string, repo: string, number: string)
    requires SubjectOf(s, owner, repo, number)
    ensures Dependencies.IsSubject(s) && Dependencies.RepoOf(s) == owner + "/" + repo
  {
    NameLacks(owner, '/');
    NameLacks(repo, '/');
    NameLacks(owner, '#');
    NameLacks(repo, '#');
    forall k | 0 <= k < |number| ensures number[k] != '#' { assert IsDigit(number[k]); }
    var front := owner + "/" + repo;
    assert s == front + ['#'] + number && front == owner + ['/'] + repo;
    SplitConcat(front, number, '#');
    SplitWhole(number, '#');
    SplitConcat(owner, repo, '/');
    SplitWhole(repo, '/');
  }

  lemma SubjectIsSplit(s: string)
    requires Dependencies.IsSubject(s)
    ensures exists owner, repo, number :: SubjectOf(s, owner, repo, number)
  {
    var parts := Split(s, '#');
    var names := Split(parts[0], '/');
    JoinSplit(s, '#');
    JoinSplit(parts[0], '/');
    JoinPair(parts, "#");
    JoinPair(names, "/");
    assert SubjectOf(s, names[0], names[1], parts[1]);
  }

  lemma JoinPair(parts: seq<string>, sep: string)
    requires |parts| == 2
    ensures Join(parts, sep) == parts[0] + sep + parts[1]
  {
    assert parts[1..] == [parts[1]];
  }

  lemma SubjectExact(s: string)
    ensures Dependencies.IsSubject(s) <==> exists owner, repo, number :: SubjectOf(s, owner, repo, number)
    ensures forall owner, repo, number ::
              SubjectOf(s, owner, repo, number) ==> Dependencies.RepoOf(s) == owner + "/" + repo
  {
    if Dependencies.IsSubject(s) { SubjectIsSplit(s); }
    forall owner, repo, number | SubjectOf(s, owner, repo, number)
      ensures Dependencies.IsSubject(s) && Dependencies.RepoOf(s) == owner + "/" + repo
    {
      SubjectSplits(s, owner, repo, number);
    }
  }

  // ----- the first diagnostic

  /** A check that fails on a condition, with its diagnostic. */
  datatype Check = Check(fails: bool, defect: Defect)

  /** The diagnostic of the first check that fails. */
  ghost function FirstFailed(checks: seq<Check>): Option<Defect> {
    if checks == [] then None
    else if checks[0].fails then Some(checks[0].defect) else FirstFailed(checks[1..])
  }

  lemma {:induction false} FailedConcat(a: seq<Check>, b: seq<Check>)
    ensures FirstFailed(a + b) == First(FirstFailed(a), FirstFailed(b))
  {
    if a == [] {
      assert a + b == b;
    } else {
      FailedConcat(a[1..], b);
      assert (a + b)[1..] == a[1..] + b;
    }
  }

  ghost function One(fails: bool, defect: Defect): seq<Check> {
    [Check(fails, defect)]
  }

  ghost function Needed(vs: seq<string>, name: Name): seq<Check> {
    [Check(|vs| == 0, Missing(name)), Check(|vs| > 1, Duplicate(name))]
  }

  ghost function Allowed(rules: Rules, vs: seq<string>, name: Name): seq<Check> {
    [Check(|vs| > 1, Duplicate(name)), Check(|vs| > 0 && !rules.admits(name, Strip(vs[0])), BadToken(name))]
  }

  /** The value of a marker that may be left out. */
  ghost function Sole(vs: seq<string>): string {
    if |vs| > 0 then Strip(vs[0]) else ""
  }

  ghost function IdentityChecks(
    role: string, target: string, subject: string, state: string, expected: string): seq<Check>
  {
    [Check(role != "repository-mutating-atom", UnsupportedRole),
      Check(!Dependencies.IsSubject(subject), InvalidSubject),
      Check(Dependencies.IsSubject(subject) && target != Dependencies.RepoOf(subject), TargetMismatch),
      Check(subject != expected, SubjectMismatch),
      Check(!(state in ["ready", "in_progress", "awaiting_land", "landed", "blocked"]), UnsupportedState)]
  }

  ghost function DependencyChecks(vs: seq<string>, subject: string): seq<Check> {
    [Check(|vs| > 1, Duplicate(DependsOn)),
      Check(|vs| > 0 && Dependencies.Parsed(Some(Strip(vs[0])), subject).None?, BadDependencies)]
  }

  ghost function BlockerChecks(vs: seq<string>, state: string): seq<Check> {
    [Check(|vs| > 1, Duplicate(Blocker)),
      Check(state != "blocked" && Sole(vs) != "", BlockerOutsideBlocked),
      Check(state == "blocked" && !NamesOwner(Sole(vs)), BlockedRequires),
      Check(state == "blocked" && Waits(Sole(vs)), BlockerNamesWaiting)]
  }

  /** Every check of the parser, in its order. */
  ghost function HeadChecks(r: Reading): seq<Check> {
    Needed(r.role, Role) + (Needed(r.target, Target) + (Needed(r.subject, Subject) + Needed(r.state, State)))
  }

  ghost function BodyChecks(rules: Rules, r: Reading, citesProse: bool, expected: string): seq<Check> {
    One(|r.feature| > 1, Duplicate(Feature))
    + (Allowed(rules, r.component, Component)
       + (IdentityChecks(Sole(r.role), Sole(r.target), Sole(r.subject), Sole(r.state), expected)
          + (One(citesProse, CitesProse)
             + (DependencyChecks(r.dependsOn, Sole(r.subject))
                + (One(|r.writeBoundary| > 1, Duplicate(WriteBoundary))
                   + (Allowed(rules, r.executor, Executor)
                      + (Allowed(rules, r.runtime, Runtime) + Allowed(rules, r.evidence, Evidence))))))))
  }

  ghost function TailChecks(rules: Rules, r: Reading): seq<Check> {
    Allowed(rules, r.relation, Relation)
    + (One(|r.observer| > 1, Duplicate(Observer)) + One(|r.capabilityProbe| > 1, Duplicate(CapabilityProbe)))
  }

  lemma OneChecks(fails: bool, defect: Defect)
    ensures FirstFailed(One(fails, defect)) == if fails then Some(defect) else None
  {
    assert One(fails, defect)[1..] == [];
  }

  lemma TwoChecks(a: Check, b: Check)
    ensures FirstFailed([a, b]) == if a.fails then Some(a.defect) else if b.fails then Some(b.defect) else None
  {
    MoreChecks(b, []);
    MoreChecks(a, [b]);
    assert [b] + [] == [b] && [a] + [b] == [a, b];
  }

  lemma NeededExact(vs: seq<string>, name: Name)
    ensures Required(vs, name) == FirstFailed(Needed(vs, name))
  {
    TwoChecks(Check(|vs| == 0, Missing(name)), Check(|vs| > 1, Duplicate(name)));
  }

  lemma UnrepeatedExact(vs: seq<string>, name: Name)
    ensures Unrepeated(vs, name) == FirstFailed(One(|vs| > 1, Duplicate(name)))
  {
    OneChecks(|vs| > 1, Duplicate(name));
  }

  lemma AllowedExact(rules: Rules, vs: seq<string>, name: Name)
    ensures Tokened(rules, vs, name) == FirstFailed(Allowed(rules, vs, name))
  {
    TwoChecks(Check(|vs| > 1, Duplicate(name)),
              Check(|vs| > 0 && !rules.admits(name, Strip(vs[0])), BadToken(name)));
  }

  lemma DependencyExact(vs: seq<string>, subject: string)
    ensures DependencyDefect(vs, subject) == FirstFailed(DependencyChecks(vs, subject))
  {
    TwoChecks(Check(|vs| > 1, Duplicate(DependsOn)),
              Check(|vs| > 0 && Dependencies.Parsed(Some(Strip(vs[0])), subject).None?, BadDependencies));
  }

  lemma MoreChecks(a: Check, rest: seq<Check>)
    ensures FirstFailed([a] + rest) == if a.fails then Some(a.defect) else FirstFailed(rest)
  {
    assert ([a] + rest)[1..] == rest;
  }

  lemma FiveChecks(a: Check, b: Check, c: Check, d: Check, e: Check)
    ensures FirstFailed([a, b, c, d, e]) ==
            if a.fails then Some(a.defect) else if b.fails then Some(b.defect) else if c.fails then Some(c.defect)
            else if d.fails then Some(d.defect) else if e.fails then Some(e.defect) else None
  {
    TwoChecks(d, e);
    MoreChecks(c, [d, e]);
    MoreChecks(b, [c, d, e]);
    MoreChecks(a, [b, c, d, e]);
    assert [c] + [d, e] == [c, d, e] && [b] + [c, d, e] == [b, c, d, e];
    assert [a] + [b, c, d, e] == [a, b, c, d, e];
  }

  lemma KnownStates(state: string)
    ensures state in STATES <==> state in ["ready", "in_progress", "awaiting_land", "landed", "blocked"]
  {
  }

  lemma IdentityExact(role: string, target: string, subject: string, state: string, expected: string)
    ensures IdentityDefect(role, target, subject, state, expected) ==
            FirstFailed(IdentityChecks(role, target, subject, state, expected))
  {
    KnownStates(state);
    var checks := IdentityChecks(role, target, subject, state, expected);
    FiveChecks(checks[0], checks[1], checks[2], checks[3], checks[4]);
    assert checks == [checks[0], checks[1], checks[2], checks[3], checks[4]];
  }

  lemma BlockerDiagnosis(rules: Rules, vs: seq<string>, state: string)
    ensures BlockerDefect(rules, vs, state) == FirstFailed(BlockerChecks(vs, state))
  {
    var checks := BlockerChecks(vs, state);
    BlockerExact(rules, Sole(vs), state);
    FiveChecks(checks[0], checks[1], checks[2], checks[3], Check(false, CitesProse));
    FailedConcat(checks, One(false, CitesProse));
    OneChecks(false, CitesProse);
    assert checks + One(false, CitesProse) == [checks[0], checks[1], checks[2], checks[3], Check(false, CitesProse)];
  }

  lemma HeadDiagnosis(r: Reading)
    ensures HeadDefect(r) == FirstFailed(HeadChecks(r))
  {
    NeededExact(r.role, Role);
    NeededExact(r.target, Target);
    NeededExact(r.subject, Subject);
    NeededExact(r.state, State);
    FailedConcat(Needed(r.subject, Subject), Needed(r.state, State));
    FailedConcat(Needed(r.target, Target), Needed(r.subject, Subject) + Needed(r.state, State));
    FailedConcat(Needed(r.role, Role),
                 Needed(r.target, Target) + (Needed(r.subject, Subject) + Needed(r.state, State)));
  }

  lemma Joined(a: Option<Defect>, b: Option<Defect>, x: seq<Check>, y: seq<Check>)
    requires a == FirstFailed(x) && b == FirstFailed(y)
    ensures First(a, b) == FirstFailed(x + y)
  {
    FailedConcat(x, y);
  }

  lemma CapabilityDiagnosis(rules: Rules, r: Reading)
    ensures First(Tokened(rules, r.executor, Executor),
              First(Tokened(rules, r.runtime, Runtime), Tokened(rules, r.evidence, Evidence))) ==
            FirstFailed(Allowed(rules, r.executor, Executor)
                        + (Allowed(rules, r.runtime, Runtime) + Allowed(rules, r.evidence, Evidence)))
  {
    AllowedExact(rules, r.executor, Executor);
    AllowedExact(rules, r.runtime, Runtime);
    AllowedExact(rules, r.evidence, Evidence);
    FailedConcat(Allowed(rules, r.runtime, Runtime), Allowed(rules, r.evidence, Evidence));
    FailedConcat(Allowed(rules, r.executor, Executor),
                 Allowed(rules, r.runtime, Runtime) + Allowed(rules, r.evidence, Evidence));
  }

  lemma BodyDiagnosis(rules: Rules, r: Reading, citesProse: bool, expected: string)
    ensures BodyDefect(rules, r, citesProse, expected) == FirstFailed(BodyChecks(rules, r, citesProse, expected))
  {
    var role, target, subject, state := Sole(r.role), Sole(r.target), Sole(r.subject), Sole(r.state);
    var tokens := Allowed(rules, r.executor, Executor)
                  + (Allowed(rules, r.runtime, Runtime) + Allowed(rules, r.evidence, Evidence));
    var write, prose := One(|r.writeBoundary| > 1, Duplicate(WriteBoundary)), One(citesProse, CitesProse);
    var depends := DependencyChecks(r.dependsOn, subject);
    var identity := IdentityChecks(role, target, subject, state, expected);
    var component, feature := Allowed(rules, r.component, Component), One(|r.feature| > 1, Duplicate(Feature));
    CapabilityDiagnosis(rules, r);
    UnrepeatedExact(r.writeBoundary, WriteBoundary);
    DependencyExact(r.dependsOn, subject);
    OneChecks(citesProse, CitesProse);
    IdentityExact(role, target, subject, state, expected);
    AllowedExact(rules, r.component, Component);
    UnrepeatedExact(r.feature, Feature);
    FailedConcat(write, tokens);
    FailedConcat(depends, write + tokens);
    FailedConcat(prose, depends + (write + tokens));
    FailedConcat(identity, prose + (depends + (write + tokens)));
    FailedConcat(component, identity + (prose + (depends + (write + tokens))));
    FailedConcat(feature, component + (identity + (prose + (depends + (write + tokens)))));
  }

  lemma TailDiagnosis(rules: Rules, r: Reading)
    ensures TailDefect(rules, r) == FirstFailed(TailChecks(rules, r))
  {
    AllowedExact(rules, r.relation, Relation);
    UnrepeatedExact(r.observer, Observer);
    UnrepeatedExact(r.capabilityProbe, CapabilityProbe);
    FailedConcat(One(|r.observer| > 1, Duplicate(Observer)), One(|r.capabilityProbe| > 1, Duplicate(CapabilityProbe)));
    FailedConcat(Allowed(rules, r.relation, Relation),
                 One(|r.observer| > 1, Duplicate(Observer)) + One(|r.capabilityProbe| > 1, Duplicate(CapabilityProbe)));
  }

  /** Every check of the parser, in its order. */
  ghost function AllChecks(rules: Rules, r: Reading, citesProse: bool, expected: string): seq<Check> {
    HeadChecks(r) + (BodyChecks(rules, r, citesProse, expected)
                     + (BlockerChecks(r.blocker, Sole(r.state)) + TailChecks(rules, r)))
  }

  /** The diagnostic is that of the first check to fail. */
  lemma ParseDiagnosis(rules: Rules, r: Reading, citesProse: bool, expected: string)
    ensures Parse(rules, r, citesProse, expected) == FirstFailed(AllChecks(rules, r, citesProse, expected))
  {
    var head, body := HeadChecks(r), BodyChecks(rules, r, citesProse, expected);
    var blocker, tail := BlockerChecks(r.blocker, Sole(r.state)), TailChecks(rules, r);
    HeadDiagnosis(r);
    BodyDiagnosis(rules, r, citesProse, expected);
    BlockerDiagnosis(rules, r.blocker, Sole(r.state));
    TailDiagnosis(rules, r);
    Joined(BlockerDefect(rules, r.blocker, Sole(r.state)), TailDefect(rules, r), blocker, tail);
    Joined(BodyDefect(rules, r, citesProse, expected), FirstFailed(blocker + tail), body, blocker + tail);
    Joined(HeadDefect(r), FirstFailed(body + (blocker + tail)), head, body + (blocker + tail));
  }

  // ----- what is read and what is written

  /** A dependencies value: the word for none, or subjects between commas. */
  lemma ParsedExact(raw: Option<string>, subject: string)
    ensures var value := Strip(if raw.Some? then raw.value else "");
            && (Dependencies.Parsed(raw, subject) == Some([]) <==> value == "none")
            && (value == "" ==> Dependencies.Parsed(raw, subject).None?)
            && (value != "none" && value != "" ==>
                  Dependencies.Parsed(raw, subject) == Dependencies.Accepted(Split(value, ','), subject))
  {
    var value := Strip(if raw.Some? then raw.value else "");
    if value != "none" && value != "" {
      Dependencies.AcceptedExact(Split(value, ','), subject);
    }
  }

  /** Five diagnostics have a cure, and each cure its one line; the values of the first three are derived. */
  lemma CureExact(d: Defect, subject: string)
    ensures Cure(d, subject).Some? <==>
              d in {Missing(Role), Missing(Target), Missing(Subject), Missing(State), BlockedRequires}
    ensures Cure(Missing(Role), subject) == Some((Mark(Role, "repository-mutating-atom"), true))
    ensures Cure(Missing(Target), subject) == Some((Mark(Target, Dependencies.RepoOf(subject)), true))
    ensures Cure(Missing(Subject), subject) == Some((Mark(Subject, subject), true))
    ensures Cure(Missing(State), subject) == Some((Mark(State, "blocked"), false))
    ensures Cure(BlockedRequires, subject) ==
            Some((Mark(Blocker, "intake-normalizer" + ":" + " contract intake normalization pending"), false))
  {
  }

  /** The derivable head holds the role, target and subject the author left out. */
  lemma DerivedHeadExact(original: Original, subject: string)
    ensures DerivedHead(original, subject) ==
            (if Values(original.marks, Role) == [] then [Mark(Role, "repository-mutating-atom")] else [])
            + (if Values(original.marks, Target) == [] then [Mark(Target, Dependencies.RepoOf(subject))] else [])
            + (if Values(original.marks, Subject) == [] then [Mark(Subject, subject)] else [])
  {
  }

  // ----- declared dependencies

  /** A declaration is mechanical when it names no dependency, or one other issue of the subject's repository or more
      and nothing else. */
  lemma MechanicalExact(d: Dependencies.Declaration, subject: string)
    ensures var repo := Dependencies.RepoOf(subject);
            Dependencies.Mechanical(d, subject) <==>
            || d.NoDependency?
            || (&& |d.references| > 0
                && forall k :: 0 <= k < |d.references| ==>
                     && d.references[k].repo in {None, Some(repo)}
                     && repo + "#" + d.references[k].number != subject)
  {
  }

  /** A reference names an issue of its repository, or of the subject's when it gives none. */
  lemma TokenText(r: Dependencies.Reference, repo: string)
    ensures r.repo.None? ==> Dependencies.Token(r, repo) == repo + "#" + r.number
    ensures r.repo.Some? ==> Dependencies.Token(r, repo) == r.repo.value + "#" + r.number
    ensures Dependencies.Rendered([]) == "none"
  {
  }
}
