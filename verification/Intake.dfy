/** Intake normalization of a nonconforming issue body (noodles.py:302-361, noodles.py:3376-3412).
    A body is its recognized markers, its declaration lines and its text; header lines are markers above it. */
module Intake {
  import opened Wrappers
  import opened Ordering
  import opened Text
  import opened Prose
  import Dependencies

  datatype Name =
    | Role | Target | Subject | State | Feature | Component | DependsOn | WriteBoundary | Executor | Runtime
    | Evidence | Blocker | Relation | Observer | CapabilityProbe | Normalized

  datatype Mark = Mark(name: Name, value: string)

  /** An issue body as authored. */
  datatype Original = Original(
    marks: seq<Mark>, citesProse: bool, declarations: seq<Dependencies.Declaration>, text: string)

  datatype Defect =
    | Missing(name: Name) | Duplicate(name: Name) | BadToken(name: Name) | UnsupportedRole | InvalidSubject
    | TargetMismatch | SubjectMismatch | UnsupportedState | CitesProse | BadDependencies
    | BlockerOutsideBlocked | BlockedRequires | BlockerNamesWaiting

  /** The token tables the parser consults, and the words of its other diagnostics. */
  datatype Rules = Rules(admits: (Name, string) -> bool, describe: Defect -> string)

  const ROLE := "repository-mutating-atom"

  const STATES := {"ready", "in_progress", "awaiting_land", "landed", "blocked"}

  // ----- the exact parser, as far as its first diagnostic

  function Values(marks: seq<Mark>, name: Name): seq<string> {
    if marks == [] then [] else Valued(marks[0], name) + Values(marks[1..], name)
  }

  function Valued(m: Mark, name: Name): seq<string> {
    if m.name == name then [m.value] else []
  }

  lemma {:induction false} ValuesConcat(a: seq<Mark>, b: seq<Mark>, name: Name)
    ensures Values(a + b, name) == Values(a, name) + Values(b, name)
  {
    if a == [] {
      assert a + b == b;
    } else {
      ValuesConcat(a[1..], b, name);
      assert (a + b)[0] == a[0] && (a + b)[1..] == a[1..] + b;
      Regroup(Valued(a[0], name), Values(a[1..], name), Values(b, name));
    }
  }

  lemma Regroup(a: seq<string>, b: seq<string>, c: seq<string>)
    ensures a + (b + c) == (a + b) + c
  {
  }

  /** The marker values the parser reads: everything but the normalization receipt. */
  datatype Reading = Reading(
    role: seq<string>, target: seq<string>, subject: seq<string>, state: seq<string>, feature: seq<string>,
    component: seq<string>, dependsOn: seq<string>, writeBoundary: seq<string>, executor: seq<string>,
    runtime: seq<string>, evidence: seq<string>, blocker: seq<string>, relation: seq<string>,
    observer: seq<string>, capabilityProbe: seq<string>)

  function Read(marks: seq<Mark>): Reading {
    Reading(Values(marks, Role), Values(marks, Target), Values(marks, Subject), Values(marks, State),
      Values(marks, Feature),
            Values(marks, Component), Values(marks, DependsOn), Values(marks, WriteBoundary), Values(marks, Executor),
            Values(marks, Runtime), Values(marks, Evidence), Values(marks, Blocker), Values(marks, Relation),
            Values(marks, Observer), Values(marks, CapabilityProbe))
  }

  function Required(vs: seq<string>, name: Name): Option<Defect> {
    if vs == [] then Some(Missing(name)) else if |vs| > 1 then Some(Duplicate(name)) else None
  }

  function Unrepeated(vs: seq<string>, name: Name): Option<Defect> {
    if |vs| > 1 then Some(Duplicate(name)) else None
  }

  function Only(vs: seq<string>): string {
    if vs == [] then [] else Strip(vs[0])
  }

  function First(a: Option<Defect>, b: Option<Defect>): Option<Defect> {
    if a.Some? then a else b
  }

  function Tokened(rules: Rules, vs: seq<string>, name: Name): Option<Defect> {
    if |vs| > 1 then Some(Duplicate(name))
    else if vs != [] && !rules.admits(name, Only(vs)) then Some(BadToken(name))
    else None
  }

  function HeadDefect(r: Reading): Option<Defect> {
    First(Required(r.role, Role),
      First(Required(r.target, Target), First(Required(r.subject, Subject), Required(r.state, State))))
  }

  function IdentityDefect(
    role: string, target: string, subject: string, state: string, expected: string): Option<Defect> {
    if role != ROLE then Some(UnsupportedRole)
    else if !Dependencies.IsSubject(subject) then Some(InvalidSubject)
    else if target != Dependencies.RepoOf(subject) then Some(TargetMismatch)
    else if subject != expected then Some(SubjectMismatch)
    else if state !in STATES then Some(UnsupportedState)
    else None
  }

  function DependencyDefect(vs: seq<string>, subject: string): Option<Defect> {
    if |vs| > 1 then Some(Duplicate(DependsOn))
    else if vs != [] && Dependencies.Parsed(Some(Only(vs)), subject).None? then Some(BadDependencies)
    else None
  }

  /** s.partition(":"), when there is a colon. */
  function Colon(s: string): Option<(string, string)> {
    if s == [] then None
    else if s[0] == ':' then Some(([], s[1..]))
    else
      var r := Colon(s[1..]);
      if r.None? then None else Some(([s[0]] + r.value.0, r.value.1))
  }

  /** parse_blocker. */
  function BlockerReading(rules: Rules, value: string, state: string): Option<Defect> {
    if state != "blocked" then (if value != [] then Some(BlockerOutsideBlocked) else None)
    else
      var parts := Colon(value);
      if parts.None? || Strip(parts.value.0) == [] || Strip(parts.value.1) == [] then Some(BlockedRequires)
      else if Waits(value) then Some(BlockerNamesWaiting)
      else None
  }

  function BlockerDefect(rules: Rules, vs: seq<string>, state: string): Option<Defect> {
    if |vs| > 1 then Some(Duplicate(Blocker)) else BlockerReading(rules, Only(vs), state)
  }

  /** The checks between the head markers and the blocker. */
  function BodyDefect(rules: Rules, r: Reading, citesProse: bool, expected: string): Option<Defect> {
    First(Unrepeated(r.feature, Feature),
    First(Tokened(rules, r.component, Component),
    First(IdentityDefect(Only(r.role), Only(r.target), Only(r.subject), Only(r.state), expected),
    First(if citesProse then Some(CitesProse) else None,
    First(DependencyDefect(r.dependsOn, Only(r.subject)),
    First(Unrepeated(r.writeBoundary, WriteBoundary),
    First(Tokened(rules, r.executor, Executor),
    First(Tokened(rules, r.runtime, Runtime), Tokened(rules, r.evidence, Evidence)))))))))
  }

  /** The checks after the blocker. */
  function TailDefect(rules: Rules, r: Reading): Option<Defect> {
    First(Tokened(rules, r.relation, Relation),
      First(Unrepeated(r.observer, Observer), Unrepeated(r.capabilityProbe, CapabilityProbe)))
  }

  /** parse_issue_contract: its first diagnostic on these markers, if any. */
  function Parse(rules: Rules, r: Reading, citesProse: bool, expected: string): Option<Defect> {
    First(HeadDefect(r),
    First(BodyDefect(rules, r, citesProse, expected),
    First(BlockerDefect(rules, r.blocker, Only(r.state)), TailDefect(rules, r))))
  }

  // ----- what the parser accepts

  lemma {:induction false} ColonExact(s: string)
    ensures Colon(s).None? <==> ':' !in s
    ensures Colon(s).Some? ==> s == Colon(s).value.0 + ":" + Colon(s).value.1 && ':' !in Colon(s).value.0
  {
    if s == [] || s[0] == ':' {
    } else {
      ColonExact(s[1..]);
      assert s == [s[0]] + s[1..];
    }
  }

  lemma {:induction false} ColonAt(key: string, rest: string)
    requires ':' !in key
    ensures Colon(key + ":" + rest) == Some((key, rest))
  {
    var s := key + ":" + rest;
    if key == [] {
      assert s[1..] == rest;
    } else {
      assert s[1..] == key[1..] + ":" + rest && s[0] == key[0];
      ColonAt(key[1..], rest);
      assert key == [key[0]] + key[1..];
    }
  }

  ghost predicate OwnerAndReason(value: string, owner: string, reason: string) {
    value == owner + ":" + reason && ':' !in owner && Strip(owner) != [] && Strip(reason) != []
  }

  ghost predicate NamesOwner(value: string) {
    exists owner, reason :: OwnerAndReason(value, owner, reason)
  }

  /** A blocked state goes with an owner and a reason that is not dependency waiting; any other with no blocker. */
  ghost predicate BlockerFits(rules: Rules, value: string, state: string) {
    if state == "blocked" then NamesOwner(value) && !Waits(value) else value == []
  }

  lemma BlockerExact(rules: Rules, value: string, state: string)
    ensures BlockerReading(rules, value, state).None? <==> BlockerFits(rules, value, state)
    ensures BlockerReading(rules, value, state) == Some(BlockedRequires) <==> state == "blocked" && !NamesOwner(value)
  {
    ColonExact(value);
    if state == "blocked" {
      if NamesOwner(value) {
        var owner, reason :| OwnerAndReason(value, owner, reason);
        ColonAt(owner, reason);
      }
      if BlockerReading(rules, value, state) != Some(BlockedRequires) {
        assert OwnerAndReason(value, Colon(value).value.0, Colon(value).value.1);
      }
    }
  }

  predicate Admitted(rules: Rules, vs: seq<string>, name: Name) {
    |vs| <= 1 && (vs != [] ==> rules.admits(name, Only(vs)))
  }

  /** Exactly one of each head marker, naming the supported role, the expected subject, its own repository
      and a known state. */
  predicate HeadFits(r: Reading, expected: string) {
    && |r.role| == |r.target| == |r.subject| == |r.state| == 1
    && Only(r.role) == ROLE && Only(r.subject) == expected && Dependencies.IsSubject(expected)
    && Only(r.target) == Dependencies.RepoOf(expected) && Only(r.state) in STATES
  }

  /** At most one of every other marker read, each token admitted, the dependencies exact subjects. */
  predicate MarkersFit(rules: Rules, r: Reading, expected: string) {
    && |r.feature| <= 1 && |r.writeBoundary| <= 1 && |r.observer| <= 1 && |r.capabilityProbe| <= 1 && |r.blocker| <= 1
    && Admitted(rules, r.component, Component) && Admitted(rules, r.executor, Executor)
    && Admitted(rules, r.runtime, Runtime)
    && Admitted(rules, r.evidence, Evidence) && Admitted(rules, r.relation, Relation)
    && |r.dependsOn| <= 1 && (r.dependsOn != [] ==> Dependencies.Parsed(Some(Only(r.dependsOn)), expected).Some?)
  }

  /** The parser accepts exactly the bodies that fit, whatever the order of its checks. */
  lemma ParseExact(rules: Rules, r: Reading, citesProse: bool, expected: string)
    ensures Parse(rules, r, citesProse, expected).None? <==>
              && HeadFits(r, expected) && MarkersFit(rules, r, expected) && !citesProse
              && BlockerFits(rules, Only(r.blocker), Only(r.state))
  {
    BlockerExact(rules, Only(r.blocker), Only(r.state));
    TokensExact(rules, r);
    HeadExact(r, expected);
  }

  lemma TokensExact(rules: Rules, r: Reading)
    ensures Tokened(rules, r.component, Component).None? <==> Admitted(rules, r.component, Component)
    ensures Tokened(rules, r.executor, Executor).None? <==> Admitted(rules, r.executor, Executor)
    ensures Tokened(rules, r.runtime, Runtime).None? <==> Admitted(rules, r.runtime, Runtime)
    ensures Tokened(rules, r.evidence, Evidence).None? <==> Admitted(rules, r.evidence, Evidence)
    ensures Tokened(rules, r.relation, Relation).None? <==> Admitted(rules, r.relation, Relation)
  {
  }

  lemma HeadExact(r: Reading, expected: string)
    ensures HeadDefect(r).None?
            && IdentityDefect(Only(r.role), Only(r.target), Only(r.subject), Only(r.state), expected).None?
            <==> HeadFits(r, expected)
  {
  }

  /** The parser's first diagnostic on a whole body. */
  function DefectOf(rules: Rules, header: seq<Mark>, original: Original, subject: string): Option<Defect> {
    Parse(rules, Read(header + original.marks), original.citesProse, subject)
  }

  /** Only the head checks miss a marker, and only the blocker check asks for a blocker. */
  predicate Settled(d: Option<Defect>) {
    d.Some? ==> !d.value.Missing? && !d.value.BlockedRequires?
  }

  lemma IdentityIsSettled(role: string, target: string, subject: string, state: string, expected: string)
    ensures Settled(IdentityDefect(role, target, subject, state, expected))
  {
  }

  lemma DependencyIsSettled(vs: seq<string>, subject: string)
    ensures Settled(DependencyDefect(vs, subject))
  {
  }

  lemma TokenedIsSettled(rules: Rules, vs: seq<string>, name: Name)
    ensures Settled(Tokened(rules, vs, name))
  {
  }

  lemma OtherChecksAreSettled(rules: Rules, r: Reading, citesProse: bool, expected: string)
    ensures Settled(BodyDefect(rules, r, citesProse, expected)) && Settled(TailDefect(rules, r))
  {
    IdentityIsSettled(Only(r.role), Only(r.target), Only(r.subject), Only(r.state), expected);
    DependencyIsSettled(r.dependsOn, Only(r.subject));
    TokenedIsSettled(rules, r.component, Component);
    TokenedIsSettled(rules, r.executor, Executor);
    TokenedIsSettled(rules, r.runtime, Runtime);
    TokenedIsSettled(rules, r.evidence, Evidence);
    TokenedIsSettled(rules, r.relation, Relation);
  }

  // ----- cures

  const OWNER := "intake-normalizer"

  const PENDING := " contract intake normalization pending"

  const IN_COMMENT := "contract intake defects are " + "named in the intake comment"

  function Placeholder(): Mark {
    Mark(Blocker, OWNER + ":" + PENDING)
  }

  /** intake_cure: one marker for one diagnostic, and whether its value is derived. */
  function Cure(defect: Defect, subject: string): Option<(Mark, bool)> {
    match defect
    case Missing(Role) => Some((Mark(Role, ROLE), true))
    case Missing(Target) => Some((Mark(Target, Dependencies.RepoOf(subject)), true))
    case Missing(Subject) => Some((Mark(Subject, subject), true))
    case Missing(State) => Some((Mark(State, "blocked"), false))
    case BlockedRequires => Some((Placeholder(), false))
    case _ => None
  }

  const CURE_LIMIT := 8

  const CURABLE: set<Name> := {Role, Target, Subject, State, Blocker}

  // ----- why the cures converge

  lemma {:induction false} NotBlank(s: string, k: nat)
    requires k < |s| && !IsSpace(s[k])
    ensures Strip(s) != []
    decreases s
  {
    if IsSpace(s[0]) {
      NotBlank(s[1..], k - 1);
    } else {
      NotBlankRight(s, 0);
    }
  }

  lemma {:induction false} NotBlankRight(s: string, k: nat)
    requires k < |s| && !IsSpace(s[k])
    ensures StripRight(s) != []
    decreases s
  {
    if k == |s| - 1 || !IsSpace(s[|s| - 1]) {
    } else {
      NotBlankRight(s[..|s| - 1], k);
    }
  }

  lemma OwnerAndReasonAreRead(rules: Rules, owner: string, reason: string, state: string)
    requires owner != [] && ':' !in owner && !IsSpace(owner[0])
    requires |reason| > 1 && !IsSpace(reason[1]) && !IsSpace(reason[|reason| - 1])
    ensures BlockerReading(rules, Strip(owner + ":" + reason), state) != Some(BlockedRequires)
  {
    var value := owner + ":" + reason;
    assert value[0] == owner[0] && value[|value| - 1] == reason[|reason| - 1];
    StripNothing(value);
    ColonAt(owner, reason);
    NotBlank(owner, 0);
    NotBlank(reason, 1);
  }

  /** The placeholder names an owner and a reason, so it never calls for itself again. */
  lemma PlaceholderIsRead(rules: Rules, state: string)
    ensures BlockerReading(rules, Strip(Placeholder().value), state) != Some(BlockedRequires)
  {
    OwnerAndReasonAreRead(rules, OWNER, PENDING, state);
  }

  lemma {:induction false} NoValues(marks: seq<Mark>, name: Name)
    ensures Values(marks, name) == [] <==> forall k :: 0 <= k < |marks| ==> marks[k].name != name
    ensures forall k :: 0 <= k < |marks| && marks[k].name == name ==> marks[k].value in Values(marks, name)
  {
    if marks == [] {
    } else {
      NoValues(marks[1..], name);
      assert forall k :: 1 <= k < |marks| ==> marks[k] == marks[1..][k - 1];
    }
  }

  function NamesOf(marks: seq<Mark>): seq<Name> {
    seq(|marks|, k requires 0 <= k < |marks| => marks[k].name)
  }

  /** A header of cures: one line a name, each the cure of that name, none repeating a marker the body
      carries, a malformed blocker aside. */
  ghost predicate CureHeader(header: seq<Mark>, original: Original, subject: string) {
    && Distinct(NamesOf(header))
    && forall k :: 0 <= k < |header| ==> IsCure(header[k], original, subject)
  }

  ghost predicate IsCure(m: Mark, original: Original, subject: string) {
    || (Values(original.marks, m.name) == [] && m.name in {Role, Target, Subject, State}
       && Cure(Missing(m.name), subject).value.0 == m)
    || m == Placeholder()
  }

  /** Five names can be cured, so a header of cures has at most five lines. */
  lemma CureHeaderIsShort(header: seq<Mark>, original: Original, subject: string)
    requires CureHeader(header, original, subject)
    ensures |header| <= 5
  {
    var names := NamesOf(header);
    DistinctCount(names);
    forall n | n in Elements(names) ensures n in CURABLE {
      var k :| 0 <= k < |names| && names[k] == n;
      assert IsCure(header[k], original, subject);
    }
    SubsetCount(Elements(names), CURABLE);
  }

  lemma {:induction false} SubsetCount<T>(a: set<T>, b: set<T>)
    requires a <= b
    ensures |a| <= |b|
    decreases |a|
  {
    if x :| x in a {
      SubsetCount(a - {x}, b - {x});
    }
  }

  lemma MissingIsMissing(rules: Rules, r: Reading, citesProse: bool, expected: string, name: Name)
    requires Parse(rules, r, citesProse, expected) == Some(Missing(name))
    ensures HeadDefect(r) == Some(Missing(name))
  {
    OtherChecksAreSettled(rules, r, citesProse, expected);
  }

  lemma BlockedMeansUnread(rules: Rules, r: Reading, citesProse: bool, expected: string)
    requires Parse(rules, r, citesProse, expected) == Some(BlockedRequires)
    ensures BlockerDefect(rules, r.blocker, Only(r.state)) == Some(BlockedRequires)
  {
    OtherChecksAreSettled(rules, r, citesProse, expected);
  }

  lemma SoleValue(vs: seq<string>, v: string)
    requires v in vs && |vs| <= 1
    ensures vs == [v]
  {
  }

  /** Once the placeholder is in the header the parser does not ask for a blocker again. */
  lemma PlaceholderStands(rules: Rules, header: seq<Mark>, original: Original, state: string, k: nat)
    requires k < |header| && header[k] == Placeholder()
    ensures BlockerDefect(rules, Values(header + original.marks, Blocker), state) != Some(BlockedRequires)
  {
    ValuesConcat(header, original.marks, Blocker);
    NoValues(header, Blocker);
    var vs := Values(header + original.marks, Blocker);
    assert Placeholder().value in vs;
    if |vs| <= 1 {
      SoleValue(vs, Placeholder().value);
      PlaceholderIsRead(rules, state);
    }
  }

  lemma HeaderNameIsMarked(header: seq<Mark>, original: Original, name: Name)
    requires Values(header + original.marks, name) == []
    ensures Values(original.marks, name) == [] && name !in NamesOf(header)
  {
    ValuesConcat(header, original.marks, name);
    NoValues(header, name);
    assert forall k :: 0 <= k < |header| ==> NamesOf(header)[k] != name;
  }

  lemma HeaderHasNoBlocker(rules: Rules, header: seq<Mark>, original: Original, subject: string, state: string)
    requires CureHeader(header, original, subject)
    requires BlockerDefect(rules, Values(header + original.marks, Blocker), state) == Some(BlockedRequires)
    ensures Blocker !in NamesOf(header)
  {
    forall k | 0 <= k < |header| ensures header[k].name != Blocker {
      assert IsCure(header[k], original, subject);
      if header[k] == Placeholder() { PlaceholderStands(rules, header, original, state, k); }
    }
  }

  lemma HeaderNext(header: seq<Mark>, original: Original, subject: string, m: Mark)
    requires CureHeader(header, original, subject) && IsCure(m, original, subject) && m.name !in NamesOf(header)
    ensures CureHeader(header + [m], original, subject)
  {
    assert NamesOf(header + [m]) == NamesOf(header) + [m.name];
    DistinctSnoc(NamesOf(header), m.name);
  }

  lemma HeadMisses(r: Reading, name: Name, marks: seq<Mark>)
    requires r == Read(marks) && HeadDefect(r) == Some(Missing(name))
    ensures Values(marks, name) == [] && name in {Role, Target, Subject, State}
  {
  }

  /** A cure always adds a name the header does not have yet. */
  lemma CureIsNew(rules: Rules, header: seq<Mark>, original: Original, subject: string, d: Defect)
    requires CureHeader(header, original, subject)
    requires DefectOf(rules, header, original, subject) == Some(d) && Cure(d, subject).Some?
    ensures CureHeader(header + [Cure(d, subject).value.0], original, subject)
  {
    var marks := header + original.marks;
    var m := Cure(d, subject).value.0;
    if d.Missing? {
      MissingIsMissing(rules, Read(marks), original.citesProse, subject, d.name);
      HeadMisses(Read(marks), d.name, marks);
      HeaderNameIsMarked(header, original, d.name);
      assert IsCure(m, original, subject);
    } else {
      assert d == BlockedRequires && m == Placeholder();
      BlockedMeansUnread(rules, Read(marks), original.citesProse, subject);
      HeaderHasNoBlocker(rules, header, original, subject, Only(Values(marks, State)));
    }
    HeaderNext(header, original, subject, m);
  }

  // ----- what a repair that claims derivation derives

  /** An accepted dependencies marker added to a body without one changes no other check. */
  lemma DependenciesFit(rules: Rules, r: Reading, dependsOn: seq<string>, citesProse: bool, expected: string)
    requires Parse(rules, r, citesProse, expected).None? && DependencyDefect(dependsOn, Only(r.subject)).None?
    ensures Parse(rules, r.(dependsOn := dependsOn), citesProse, expected).None?
  {
  }

  /** The derivable head markers the body lacks, in the parser's order. */
  function DerivedHead(original: Original, subject: string): (r: seq<Mark>) {
    DerivedMark(original, Role, ROLE)
    + DerivedMark(original, Target, Dependencies.RepoOf(subject))
    + DerivedMark(original, Subject, subject)
  }

  function DerivedMark(original: Original, name: Name, value: string): seq<Mark> {
    if Values(original.marks, name) == [] then [Mark(name, value)] else []
  }

  const HEAD: set<Name> := {Role, Target, Subject}

  lemma DerivedHeadValues(original: Original, subject: string, name: Name)
    ensures Values(DerivedHead(original, subject), name) ==
            if name in HEAD && Values(original.marks, name) == []
              then [Cure(Missing(name), subject).value.0.value] else []
  {
    var r, s := DerivedMark(original, Role, ROLE), DerivedMark(original, Subject, subject);
    var t := DerivedMark(original, Target, Dependencies.RepoOf(subject));
    ValuesConcat(r + t, s, name);
    ValuesConcat(r, t, name);
    OneMark(original, Role, ROLE, name);
    OneMark(original, Target, Dependencies.RepoOf(subject), name);
    OneMark(original, Subject, subject, name);
  }

  lemma OneMark(original: Original, name: Name, value: string, other: Name)
    ensures Values(DerivedMark(original, name, value), other) ==
            if other == name && Values(original.marks, name) == [] then [value] else []
  {
    var marks := DerivedMark(original, name, value);
    if marks != [] { assert marks[1..] == []; }
  }

  lemma {:induction false} DistinctValues(marks: seq<Mark>, name: Name)
    requires Distinct(NamesOf(marks))
    ensures |Values(marks, name)| <= 1
  {
    if marks == [] {
    } else {
      var rest := marks[1..];
      assert NamesOf(marks) == [marks[0].name] + NamesOf(rest);
      forall i, j | 0 <= i < j < |rest| ensures NamesOf(rest)[i] != NamesOf(rest)[j] {
        assert NamesOf(marks)[i + 1] != NamesOf(marks)[j + 1];
      }
      DistinctValues(rest, name);
      NoValues(rest, name);
      forall k | 0 <= k < |rest| ensures rest[k].name != marks[0].name {
        assert NamesOf(marks)[0] != NamesOf(marks)[k + 1];
      }
    }
  }

  ghost predicate OnlyHead(header: seq<Mark>) {
    forall k :: 0 <= k < |header| ==> header[k].name in HEAD
  }

  /** A header of derived lines gives a name the derived value or nothing. */
  lemma OnlyHeadValues(header: seq<Mark>, original: Original, subject: string, name: Name)
    requires CureHeader(header, original, subject) && OnlyHead(header)
    ensures Values(header, name) == [] || (name in HEAD && Values(original.marks, name) == []
                                           && Values(header, name) == [Cure(Missing(name), subject).value.0.value])
  {
    NoValues(header, name);
    DistinctValues(header, name);
    if Values(header, name) != [] {
      var k :| 0 <= k < |header| && header[k].name == name;
      assert IsCure(header[k], original, subject);
      SoleValue(Values(header, name), header[k].value);
    }
  }

  /** A reading that lacks at most some of the head markers of another. */
  ghost predicate PartOf(a: Reading, full: Reading) {
    && a == full.(role := a.role, target := a.target, subject := a.subject)
    && (a.role == full.role || a.role == []) && (a.target == full.target || a.target == [])
    && (a.subject == full.subject || a.subject == [])
  }

  /** Two readings of a value agree, or the first lacks a head marker. */
  ghost predicate Within(a: seq<string>, full: seq<string>, name: Name) {
    a == full || (name in HEAD && a == [])
  }

  /** What the body reads as under a header of derived lines, against the whole derived head. */
  lemma HeaderAgainstHead(header: seq<Mark>, original: Original, subject: string, n: Name)
    requires CureHeader(header, original, subject) && OnlyHead(header)
    ensures Within(Values(header + original.marks, n), Values(DerivedHead(original, subject) + original.marks, n), n)
  {
    DerivedHeadValues(original, subject, n);
    OnlyHeadValues(header, original, subject, n);
    ValuesConcat(DerivedHead(original, subject), original.marks, n);
    ValuesConcat(header, original.marks, n);
  }

  ghost predicate SameBeyond(a: seq<Mark>, b: seq<Mark>, names: set<Name>) {
    forall n {:trigger Values(a, n)} {:trigger Values(b, n)} :: n !in names ==> Values(a, n) == Values(b, n)
  }

  predicate SameHead(x: Reading, y: Reading, names: set<Name>) {
    && (Role !in names ==> x.role == y.role) && (Target !in names ==> x.target == y.target)
    && (Subject !in names ==> x.subject == y.subject) && (State !in names ==> x.state == y.state)
    && (Feature !in names ==> x.feature == y.feature) && (Component !in names ==> x.component == y.component)
    && (DependsOn !in names ==> x.dependsOn == y.dependsOn)
  }

  predicate SameRest(x: Reading, y: Reading, names: set<Name>) {
    && (WriteBoundary !in names ==> x.writeBoundary == y.writeBoundary)
    && (Executor !in names ==> x.executor == y.executor) && (Runtime !in names ==> x.runtime == y.runtime)
    && (Evidence !in names ==> x.evidence == y.evidence) && (Blocker !in names ==> x.blocker == y.blocker)
    && (Relation !in names ==> x.relation == y.relation) && (Observer !in names ==> x.observer == y.observer)
    && (CapabilityProbe !in names ==> x.capabilityProbe == y.capabilityProbe)
  }

  /** Marks that agree beyond some names read alike there. */
  lemma HeadBeyond(a: seq<Mark>, b: seq<Mark>, names: set<Name>)
    requires SameBeyond(a, b, names)
    ensures SameHead(Read(a), Read(b), names)
  {
  }

  lemma RestBeyond(a: seq<Mark>, b: seq<Mark>, names: set<Name>)
    requires SameBeyond(a, b, names)
    ensures SameRest(Read(a), Read(b), names)
  {
  }

  lemma HeaderIsPart(header: seq<Mark>, original: Original, subject: string)
    requires CureHeader(header, original, subject) && OnlyHead(header)
    ensures PartOf(Read(header + original.marks), Read(DerivedHead(original, subject) + original.marks))
  {
    var marks, full := header + original.marks, DerivedHead(original, subject) + original.marks;
    forall n ensures Within(Values(marks, n), Values(full, n), n) { HeaderAgainstHead(header, original, subject, n); }
    assert Within(Values(marks, Role), Values(full, Role), Role);
    assert Within(Values(marks, Target), Values(full, Target), Target);
    assert Within(Values(marks, Subject), Values(full, Subject), Subject);
    assert SameBeyond(marks, full, HEAD) by {
      forall n | n !in HEAD
        ensures Values(marks, n) == Values(full, n) { assert Within(Values(marks, n), Values(full, n), n); }
    }
    PartFromValues(marks, full);
  }

  lemma PartFromValues(marks: seq<Mark>, full: seq<Mark>)
    requires SameBeyond(marks, full, HEAD)
    requires Within(Values(marks, Role), Values(full, Role), Role)
    requires Within(Values(marks, Target), Values(full, Target), Target)
    requires Within(Values(marks, Subject), Values(full, Subject), Subject)
    ensures PartOf(Read(marks), Read(full))
  {
    HeadBeyond(marks, full, HEAD);
    RestBeyond(marks, full, HEAD);
    PartFromFields(Read(marks), Read(full));
  }

  lemma PartFromFields(a: Reading, f: Reading)
    requires Within(a.role, f.role, Role) && Within(a.target, f.target, Target) && Within(a.subject, f.subject, Subject)
    requires SameHead(a, f, HEAD) && SameRest(a, f, HEAD)
    ensures PartOf(a, f)
  {
  }

  /** No diagnostic, or one that asks for a derivable head marker. */
  predicate AtMostHead(d: Option<Defect>) {
    d.Some? ==> d.value.Missing? && d.value.name in HEAD
  }

  /** Where the full reading satisfies the parser, a part of it does too or is asked for a head marker. */
  lemma PartAsksForHead(rules: Rules, a: Reading, full: Reading, citesProse: bool, subject: string)
    requires PartOf(a, full) && Parse(rules, full, citesProse, subject).None?
    ensures AtMostHead(Parse(rules, a, citesProse, subject))
  {
    assert HeadDefect(full).None?;
    if HeadDefect(a).None? { assert a == full; }
  }

  lemma SatisfiedPartIsWhole(rules: Rules, a: Reading, full: Reading, citesProse: bool, subject: string)
    requires PartOf(a, full) && Parse(rules, a, citesProse, subject).None?
    ensures a == full
  {
    assert HeadDefect(a).None?;
  }
}
