/** A repair that is not a migration and whose state still reads ready (noodles.py:3443-3464). */
module IntakeExamples {
  import opened Wrappers
  import opened Text
  import opened Intake
  import opened MarkerLines
  import opened NamedBlocker
  import opened RepairLines
  import opened Normalization
  import Dependencies

  // ----- a repair that stays ready

  /** A ready issue without a role, with dependencies neither declared nor derivable. */
  predicate ReadyButUnderivable(original: Original, subject: string) {
    && Values(original.marks, Role) == [] && Values(original.marks, Normalized) == []
    && Values(original.marks, State) == ["ready"]
    && !Declares(original) && !AllMechanical(original.declarations, subject)
  }

  lemma RoleIsAskedFirst(rules: Rules, r: Reading, citesProse: bool, subject: string)
    requires r.role == []
    ensures Parse(rules, r, citesProse, subject) == Some(Missing(Role))
  {
  }

  lemma RolelessIsOwed(rules: Rules, original: Original, subject: string)
    requires Values(original.marks, Role) == [] && Values(original.marks, Normalized) == []
    ensures Owes(rules, original, subject)
  {
    var marks: seq<Mark> := [];
    assert marks + original.marks == original.marks;
    RoleIsAskedFirst(rules, Read(original.marks), original.citesProse, subject);
  }

  lemma Underivable(rules: Rules, original: Original, subject: string)
    requires !Declares(original) && !AllMechanical(original.declarations, subject)
    ensures !Derives(rules, original, subject)
  {
  }

  lemma OnlyReady()
    ensures Only(["ready"]) == "ready"
  {
    StripNothing("ready");
  }

  lemma NotAskedQuotesNothing(rules: Rules, defects: seq<Defect>, n: Name)
    requires BlockedRequires !in defects
    ensures Quoted(rules, defects, n) == []
  {
  }

  /** The repair such an issue gets is one its author is told is blocked, and its state still reads ready. */
  lemma ReadyStaysReady(rules: Rules, original: Original, subject: string, digest: string, a: Answer)
    requires ReadyButUnderivable(original, subject) && Answers(rules, original, subject, digest, a)
    ensures a.Repaired? && a.blocked && Values(Written(original, a.header).marks, State) == ["ready"]
  {
    RolelessIsOwed(rules, original, subject);
    Underivable(rules, original, subject);
    OnlyReady();
    assert BlockedRequires !in a.defects;
    NotAskedQuotesNothing(rules, a.defects, State);
  }

  function ReadyLines(subject: string): seq<Mark> {
    [Mark(Target, Dependencies.RepoOf(subject)), Mark(Subject, subject), Mark(State, "ready")]
  }

  /** Such an issue, its one declaration line naming nothing. */
  function ReadyExample(subject: string): Original {
    Authored(Lines(ReadyLines(subject)), false, [Dependencies.Names([])])
  }

  lemma ReadyLinesArePlain(subject: string)
    requires Dependencies.IsSubject(subject)
    ensures AllPlain(ReadyLines(subject))
  {
    SubjectIsClean(subject);
    assert IsWording("ready");
    WordingIsClean("ready");
  }

  /** A text of plain lines holds what they write. */
  lemma LinesAreMarks(marks: seq<Mark>, n: Name)
    requires AllPlain(marks)
    ensures Values(MarksIn(Lines(marks)), n) == Values(marks, n)
  {
    MarksAreScanned(Lines(marks), n);
    LinesAreRead(marks, n);
  }

  lemma ThreeValues(a: Mark, b: Mark, c: Mark, n: Name)
    requires a.name != b.name && a.name != c.name && b.name != c.name
    ensures Values([a, b, c], n) ==
            if n == a.name then [a.value] else if n == b.name then [b.value] else if n == c.name then [c.value] else []
  {
    assert [a, b, c][1..] == [b, c] && [b, c][1..] == [c];
    OneValue(c, n);
    assert Values([b, c], n) == Valued(b, n) + Valued(c, n);
    assert Values([a, b, c], n) == Valued(a, n) + (Valued(b, n) + Valued(c, n));
  }

  lemma OneValue(m: Mark, n: Name)
    ensures Values([m], n) == Valued(m, n)
  {
    assert [m][1..] == [];
  }

  lemma ReadyLineValues(subject: string, n: Name)
    requires n != Target && n != Subject
    ensures Values(ReadyLines(subject), n) == if n == State then ["ready"] else []
  {
    ThreeValues(Mark(Target, Dependencies.RepoOf(subject)), Mark(Subject, subject), Mark(State, "ready"), n);
  }

  lemma ReadyValues(subject: string, n: Name)
    requires Dependencies.IsSubject(subject) && n != Target && n != Subject
    ensures Values(ReadyExample(subject).marks, n) == if n == State then ["ready"] else []
  {
    ReadyLinesArePlain(subject);
    LinesAreMarks(ReadyLines(subject), n);
    ReadyLineValues(subject, n);
    assert ReadyExample(subject).marks == MarksIn(Lines(ReadyLines(subject)));
  }

  lemma ReadyExampleIsOne(subject: string)
    requires Dependencies.IsSubject(subject)
    ensures ReadyButUnderivable(ReadyExample(subject), subject) && IsBody(ReadyExample(subject))
  {
    var original, d := ReadyExample(subject), Dependencies.Names([]);
    ReadyValues(subject, Role);
    ReadyValues(subject, Normalized);
    ReadyValues(subject, State);
    ReadyValues(subject, DependsOn);
    assert d in original.declarations && !Dependencies.Mechanical(d, subject);
  }
}
