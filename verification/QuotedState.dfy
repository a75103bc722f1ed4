/** A repair whose blocker names a diagnostic that quotes a state marker (noodles.py:3443-3451,
    issue_contract.py:648-661). */
module QuotedState {
  import opened Wrappers
  import opened Text
  import opened Prose
  import opened Intake
  import opened MarkerLines
  import opened NamedBlocker
  import opened CureLoop
  import opened RepairLines
  import opened BlockedRepair
  import opened Normalization
  import opened IntakeExamples
  import Dependencies

  // ----- such a body

  /** A relation whose value opens a state marker. */
  const RELATION := Opened(State, " blocked")

  function HeadLines(subject: string): seq<Mark> {
    [Mark(Role, ROLE), Mark(Target, Dependencies.RepoOf(subject)), Mark(Subject, subject)]
  }

  /** A conforming head but for the state, and that relation: its comment is a relation and a blocked state. */
  function QuotingExample(subject: string): Original {
    Authored(QuotingText(subject), false, [])
  }

  lemma NestedParts(a: string, o: string, k: string, w: string)
    ensures a + (o + (a + (k + (a + w)))) + a == a + (o + (a + (k + (a + w + a))))
  {
  }

  /** A marker line written inside another's value is read as the outer marker and as the inner one. */
  lemma NestedIsRead(outer: Name, inner: Name, w: string, n: Name)
    requires outer != inner && outer != Normalized && Plain(Mark(inner, w))
    requires Strip(Opened(inner, " " + w)) == Opened(inner, " " + w)
    ensures Scan(Line(Mark(outer, Opened(inner, " " + w))), n)
         == if n == outer then [Opened(inner, " " + w)] else Valued(Mark(inner, w), n)
  {
    var value, v := Opened(inner, " " + w), " " + w + " ";
    KeyChars(inner);
    NestedParts(" ", OPEN, Key(inner), w);
    assert " " + value + " " == " " + Opened(inner, v) && '>' !in value && '>' !in v;
    ScanNothing("\n", n);
    if n == outer {
      StripPadded(value);
      ScanNamed(outer, " " + value + " ", "\n");
    } else {
      ScanInside(outer, " ", inner, v, "\n", n);
      LineIsRead(Mark(inner, w), n);
    }
  }

  lemma RelationIsRead(n: Name)
    ensures Scan(Line(Mark(Relation, RELATION)), n)
         == if n == Relation then [RELATION] else Valued(Mark(State, "blocked"), n)
    ensures Only([RELATION]) == RELATION
  {
    var key := Key(State);
    BlockedIsClean();
    assert " blocked" == " " + "blocked" && "blocked"[6] == 'd';
    StripNothing(RELATION);
    NestedIsRead(Relation, State, "blocked", n);
  }

  /** A head, a relation and this blocker. */
  function HeadReading(role: string, target: string, subject: string, state: string, relation: string,
                       blocker: seq<string>): Reading {
    Reading([role], [target], [subject], [state], [], [], [], [], [], [], [], blocker, [relation], [], [])
  }

  function HeadValue(role: string, target: string, subject: string, state: string, relation: string, n: Name)
    : seq<string>
  {
    match n
    case Role => [role]
    case Target => [target]
    case Subject => [subject]
    case State => [state]
    case Relation => [relation]
    case _ => []
  }

  lemma ReadsAsHead(marks: seq<Mark>, role: string, target: string, subject: string, state: string, relation: string)
    requires forall n :: Values(marks, n) == HeadValue(role, target, subject, state, relation, n)
    ensures Read(marks) == HeadReading(role, target, subject, state, relation, [])
  {
  }

  lemma ReadsAsQuoting(marks: seq<Mark>, subject: string)
    requires forall n :: Values(marks, n) == QuotingValue(subject, n)
    ensures Read(marks) == QuotingReading(subject, []) && Values(marks, Normalized) == []
  {
    ReadsAsHead(marks, ROLE, Dependencies.RepoOf(subject), subject, "blocked", RELATION);
  }

  lemma IsQuoting(text: string, subject: string)
    requires Read(MarksIn(text)) == QuotingReading(subject, []) && Values(MarksIn(text), Normalized) == []
    ensures QuotesState(Authored(text, false, []), subject)
  {
  }

  /** What such a body reads as, under this blocker. */
  function QuotingReading(subject: string, blocker: seq<string>): Reading {
    HeadReading(ROLE, Dependencies.RepoOf(subject), subject, "blocked", RELATION, blocker)
  }

  lemma HeadLinesArePlain(subject: string)
    requires Dependencies.IsSubject(subject)
    ensures AllPlain(HeadLines(subject))
  {
    SubjectIsClean(subject);
    RoleIsClean();
  }

  function QuotingValue(subject: string, n: Name): seq<string> {
    HeadValue(ROLE, Dependencies.RepoOf(subject), subject, "blocked", RELATION, n)
  }

  function ThreeHead(role: string, target: string, subject: string, n: Name): seq<string> {
    if n == Role then [role] else if n == Target then [target] else if n == Subject then [subject] else []
  }

  function TwoTail(relation: string, state: string, n: Name): seq<string> {
    if n == Relation then [relation] else if n == State then [state] else []
  }

  lemma FiveValues(role: string, target: string, subject: string, state: string, relation: string, n: Name)
    ensures ThreeHead(role, target, subject, n) + TwoTail(relation, state, n)
         == HeadValue(role, target, subject, state, relation, n)
  {
  }

  lemma HeadLineValues(subject: string, n: Name)
    ensures Values(HeadLines(subject), n) == ThreeHead(ROLE, Dependencies.RepoOf(subject), subject, n)
  {
    ThreeValues(Mark(Role, ROLE), Mark(Target, Dependencies.RepoOf(subject)), Mark(Subject, subject), n);
  }

  lemma RelationAlone(n: Name)
    ensures Scan(Lines([Mark(Relation, RELATION)]), n) == TwoTail(RELATION, "blocked", n)
  {
    LineAlone(Mark(Relation, RELATION));
    RelationIsRead(n);
  }

  lemma TextIsRead(subject: string, n: Name)
    requires Dependencies.IsSubject(subject)
    ensures Scan(Lines(HeadLines(subject) + [Mark(Relation, RELATION)]), n) == QuotingValue(subject, n)
  {
    HeadLinesArePlain(subject);
    PlainThenOne(HeadLines(subject), Mark(Relation, RELATION), n);
    HeadLineValues(subject, n);
    RelationAlone(n);
    FiveValues(ROLE, Dependencies.RepoOf(subject), subject, "blocked", RELATION, n);
  }

  lemma PlainThenOne(head: seq<Mark>, m: Mark, n: Name)
    requires AllPlain(head)
    ensures Scan(Lines(head + [m]), n) == Values(head, n) + Scan(Lines([m]), n)
  {
    ScanLines(head, [m], n);
    LinesAreRead(head, n);
  }

  /** A body of those markers and no declaration line. */
  ghost predicate QuotesState(original: Original, subject: string) {
    && IsBody(original) && !original.citesProse && original.declarations == []
    && Read(original.marks) == QuotingReading(subject, []) && Values(original.marks, Normalized) == []
  }

  function QuotingText(subject: string): string {
    Lines(HeadLines(subject) + [Mark(Relation, RELATION)])
  }

  lemma QuotingMarks(subject: string, n: Name)
    requires Dependencies.IsSubject(subject)
    ensures Values(MarksIn(QuotingText(subject)), n) == QuotingValue(subject, n)
  {
    MarksAreScanned(QuotingText(subject), n);
    TextIsRead(subject, n);
  }

  lemma QuotingReads(subject: string)
    requires Dependencies.IsSubject(subject)
    ensures Read(MarksIn(QuotingText(subject))) == QuotingReading(subject, [])
    ensures Values(MarksIn(QuotingText(subject)), Normalized) == []
  {
    var marks := MarksIn(QuotingText(subject));
    forall n ensures Values(marks, n) == QuotingValue(subject, n) { QuotingMarks(subject, n); }
    ReadsAsQuoting(marks, subject);
  }

  lemma QuotingExampleIsOne(subject: string)
    requires Dependencies.IsSubject(subject)
    ensures QuotesState(QuotingExample(subject), subject)
  {
    QuotingReads(subject);
    IsQuoting(QuotingText(subject), subject);
  }

  lemma WithPlaceholder(marks: seq<Mark>)
    requires Values(marks, Blocker) == []
    ensures Read([Placeholder()] + marks) == Read(marks).(blocker := [Placeholder().value])
  {
    var named := [Placeholder()];
    forall n | n != Blocker ensures Values(named + marks, n) == Values(marks, n) {
      ValuesConcat(named, marks, n);
      OneValue(Placeholder(), n);
      assert [] + Values(marks, n) == Values(marks, n);
    }
    ReadButBlocker(named + marks, marks);
    ValuesConcat(named, marks, Blocker);
    OneValue(Placeholder(), Blocker);
    assert [Placeholder().value] + [] == [Placeholder().value];
  }

  /** Its head and the checks before the blocker pass. */
  lemma QuotingFits(rules: Rules, subject: string, blocker: seq<string>)
    requires Dependencies.IsSubject(subject)
    ensures var r := QuotingReading(subject, blocker);
            HeadDefect(r).None? && BodyDefect(rules, r, false, subject).None? && Only(r.state) == "blocked"
  {
    SubjectIsClean(subject);
    RoleIsClean();
    BlockedIsClean();
  }

  /** It is asked for a blocker, and under one its relation is malformed. */
  lemma QuotingAsks(rules: Rules, subject: string)
    requires Dependencies.IsSubject(subject)
    ensures Parse(rules, QuotingReading(subject, []), false, subject) == Some(BlockedRequires)
  {
    QuotingFits(rules, subject, []);
  }

  lemma QuotingFails(rules: Rules, subject: string)
    requires Dependencies.IsSubject(subject) && !rules.admits(Relation, RELATION)
    ensures Parse(rules, QuotingReading(subject, [Placeholder().value]), false, subject) == Some(BadToken(Relation))
  {
    QuotingFits(rules, subject, [Placeholder().value]);
    RelationIsRead(Relation);
    PlaceholderFits(rules);
    BlockerExact(rules, Only([Placeholder().value]), "blocked");
  }

  lemma ParsesAs(rules: Rules, header: seq<Mark>, original: Original, subject: string, r: Reading)
    requires Read(header + original.marks) == r
    ensures DefectOf(rules, header, original, subject) == Parse(rules, r, original.citesProse, subject)
  {
  }

  lemma FirstDiagnosis(rules: Rules, original: Original, subject: string)
    requires Dependencies.IsSubject(subject) && !original.citesProse
    requires Read(original.marks) == QuotingReading(subject, [])
    ensures DefectOf(rules, [], original, subject) == Some(BlockedRequires)
  {
    assert [] + original.marks == original.marks;
    ParsesAs(rules, [], original, subject, QuotingReading(subject, []));
    QuotingAsks(rules, subject);
  }

  lemma SecondDiagnosis(rules: Rules, original: Original, subject: string)
    requires Dependencies.IsSubject(subject) && !rules.admits(Relation, RELATION) && !original.citesProse
    requires Read(original.marks) == QuotingReading(subject, [])
    ensures DefectOf(rules, [Placeholder()], original, subject) == Some(BadToken(Relation))
  {
    assert Values(original.marks, Blocker) == Read(original.marks).blocker;
    WithPlaceholder(original.marks);
    ParsesAs(rules, [Placeholder()], original, subject, QuotingReading(subject, [Placeholder().value]));
    QuotingFails(rules, subject);
  }

  // ----- the diagnostics one by one

  lemma FirstIs(diagnose: seq<Mark> -> Option<Defect>, subject: string, defects: seq<Defect>)
    requires NamesDefects(diagnose, subject, defects) && diagnose([]).Some?
    ensures defects != [] && diagnose([]) == Some(defects[0])
  {
    assert Cures([], subject) == [];
    if defects != [] {
      assert DiagnosedAt(diagnose, subject, defects, 0) && defects[..0] == [];
    }
  }

  lemma CuresOne(d: Defect, subject: string)
    requires Cure(d, subject).Some?
    ensures AllCured([d], subject) && Cures([d], subject) == [Cure(d, subject).value.0]
  {
  }

  lemma OnlyOne(diagnose: seq<Mark> -> Option<Defect>, subject: string, defects: seq<Defect>)
    requires NamesDefects(diagnose, subject, defects) && defects != [] && Cure(defects[0], subject).Some?
    ensures |defects| == 1 ==> diagnose([Cure(defects[0], subject).value.0]).None?
  {
    CuresOne(defects[0], subject);
    if |defects| == 1 { assert defects == [defects[0]]; }
  }

  lemma SecondIs(diagnose: seq<Mark> -> Option<Defect>, subject: string, defects: seq<Defect>, d: Defect)
    requires NamesDefects(diagnose, subject, defects) && defects != [] && defects[0] == d
    requires Cure(d, subject).Some? && diagnose([Cure(d, subject).value.0]).Some?
    ensures |defects| > 1 && diagnose([Cure(d, subject).value.0]) == Some(defects[1])
  {
    CuresOne(d, subject);
    OnlyOne(diagnose, subject, defects);
    if |defects| > 1 { assert DiagnosedAt(diagnose, subject, defects, 1) && defects[..1] == [d]; }
  }

  lemma NotLastIsCured(diagnose: seq<Mark> -> Option<Defect>, subject: string, defects: seq<Defect>, k: nat)
    requires Diagnosed(diagnose, subject, defects) && k + 1 < |defects|
    ensures Cure(defects[k], subject).Some?
  {
    assert DiagnosedAt(diagnose, subject, defects, k + 1);
    assert defects[..k + 1][k] == defects[k];
  }

  lemma TwoDefects(diagnose: seq<Mark> -> Option<Defect>, subject: string, defects: seq<Defect>, d: Defect, e: Defect)
    requires NamesDefects(diagnose, subject, defects)
    requires diagnose([]) == Some(d) && Cure(d, subject).Some?
    requires diagnose([Cure(d, subject).value.0]) == Some(e) && Cure(e, subject).None?
    ensures defects == [d, e]
  {
    FirstIs(diagnose, subject, defects);
    SecondIs(diagnose, subject, defects, d);
    if |defects| > 2 { NotLastIsCured(diagnose, subject, defects, 1); }
  }

  lemma AskedThenMalformed(diagnose: seq<Mark> -> Option<Defect>, subject: string, defects: seq<Defect>)
    requires NamesDefects(diagnose, subject, defects)
    requires diagnose([]) == Some(BlockedRequires) && diagnose([Placeholder()]) == Some(BadToken(Relation))
    ensures defects == [BlockedRequires, BadToken(Relation)]
  {
    TwoDefects(diagnose, subject, defects, BlockedRequires, BadToken(Relation));
  }

  lemma QuotingDiagnoser(rules: Rules, original: Original, subject: string, defects: seq<Defect>)
    returns (diagnose: seq<Mark> -> Option<Defect>)
    requires Dependencies.IsSubject(subject) && !rules.admits(Relation, RELATION) && QuotesState(original, subject)
    requires NamesDefects(Diagnoses(rules, original, subject), subject, defects)
    ensures NamesDefects(diagnose, subject, defects)
    ensures diagnose([]) == Some(BlockedRequires) && diagnose([Placeholder()]) == Some(BadToken(Relation))
  {
    diagnose := Diagnoses(rules, original, subject);
    FirstDiagnosis(rules, original, subject);
    SecondDiagnosis(rules, original, subject);
  }

  /** The diagnostics of the repair are the demand for a blocker and the malformed relation, and no others. */
  lemma QuotingDefects(rules: Rules, original: Original, subject: string, defects: seq<Defect>)
    requires Dependencies.IsSubject(subject) && !rules.admits(Relation, RELATION) && QuotesState(original, subject)
    requires NamesDefects(Diagnoses(rules, original, subject), subject, defects)
    ensures defects == [BlockedRequires, BadToken(Relation)]
  {
    var diagnose := QuotingDiagnoser(rules, original, subject, defects);
    AskedThenMalformed(diagnose, subject, defects);
  }

  // ----- what the malformed relation quotes

  const EXPECTED_TAIL := "supersedes " + ("owner/repo#" + "N' naming the elder")

  const EXPECTED := "': " + ("expected exactly " + ("'enriches|" + EXPECTED_TAIL))

  /** The diagnostic of that relation (issue_contract.py:658-661). */
  const MALFORMED := "malformed noodles-relation '" + RELATION + EXPECTED

  lemma TailChars()
    ensures NoBracket(EXPECTED_TAIL) && EXPECTED_TAIL[|EXPECTED_TAIL| - 1] == 'r'
  {
    var a, b, c := "supersedes ", "owner/repo#", "N' naming the elder";
    assert NoBracket(a);
    assert NoBracket(b);
    assert NoBracket(c);
    assert c[18] == 'r' && |c| == 19;
  }

  lemma ExpectedChars()
    ensures NoBracket(EXPECTED) && EXPECTED[|EXPECTED| - 1] == 'r' && NoBracket("malformed noodles-relation '")
  {
    var a, b, c := "': ", "expected exactly ", "'enriches|";
    assert NoBracket(a);
    assert NoBracket(b);
    assert NoBracket(c);
    TailChars();
  }

  lemma QuotedComment(o: string, k: string, b: string, e: string, c: string)
    ensures o + (c + (k + (c + b))) + e + (c + (("--" + ">") + "\n"))
         == o + (c + k) + (c + (b + e) + c) + "--" + ">" + "\n"
  {
  }

  lemma MisreadIsTight()
    ensures Strip("blocked" + EXPECTED) == "blocked" + EXPECTED
  {
    ExpectedChars();
    var s := "blocked" + EXPECTED;
    assert s[0] == 'b' && s[|s| - 1] == EXPECTED[|EXPECTED| - 1];
    StripNothing(s);
  }

  /** The quoted value opens a state marker, which ends with the line. */
  lemma MalformedText()
    ensures MALFORMED + CLOSING
         == "malformed noodles-relation '" + (Comment(State, " " + ("blocked" + EXPECTED) + " ") + ">" + "\n")
  {
    assert " blocked" == " " + "blocked" && CLOSE == "--" + ">";
    CommentFlat(State, " " + ("blocked" + EXPECTED) + " ");
    QuotedComment(OPEN, Key(State), "blocked", EXPECTED, " ");
    QuoteFirst("malformed noodles-relation '", RELATION, EXPECTED, CLOSING);
  }

  lemma QuoteFirst(a: string, b: string, c: string, d: string)
    ensures a + b + c + d == a + (b + c + d)
  {
  }

  lemma MisreadIsPlain()
    ensures Plain(Mark(State, "blocked" + EXPECTED))
  {
    ExpectedChars();
    MisreadIsTight();
    assert NoBracket("blocked");
  }

  lemma MalformedIsScanned()
    ensures Scan(MALFORMED + CLOSING, State) == ["blocked" + EXPECTED]
  {
    MalformedText();
    ExpectedChars();
    ScanBehind("malformed noodles-relation '", Line(Mark(State, "blocked" + EXPECTED)), State);
    MisreadIsPlain();
    LineIsRead(Mark(State, "blocked" + EXPECTED), State);
  }

  // ----- that the reason is no dependency prose

  ghost predicate WithoutPyg(s: string) {
    forall k :: 0 <= k < |s| ==> s[k] != 'p' && s[k] != 'P' && s[k] != 'y' && s[k] != 'Y' && s[k] != 'g' && s[k] != 'G'
                                 && s[k] != '#'
  }

  ghost predicate WithoutNobw(s: string) {
    forall k :: 0 <= k < |s| ==> s[k] != 'n' && s[k] != 'N' && s[k] != 'o' && s[k] != 'O' && s[k] != 'b' && s[k] != 'B'
                                 && s[k] != 'w' && s[k] != 'W' && s[k] != '#'
  }

  ghost predicate WithoutDbg(s: string) {
    forall k :: 0 <= k < |s| ==> s[k] != 'd' && s[k] != 'D' && s[k] != 'b' && s[k] != 'B' && s[k] != 'g' && s[k] != 'G'
                                 && (s[k] == '#' ==> k == |s| - 1)
  }

  lemma WordLetters()
    ensures "depend"[2] == 'p' && "depend"[4] == 'n' && "depend"[0] == 'd'
    ensures "predecessor"[0] == 'p' && "predecessor"[9] == 'o' && "predecessor"[3] == 'd'
    ensures "blocked by"[9] == 'y' && "blocked by"[0] == 'b'
    ensures "waiting"[6] == 'g' && "waiting"[0] == 'w'
  {
  }

  lemma PygUnmatched(s: string)
    requires WithoutPyg(s)
    ensures !Waits(s)
  {
    WordLetters();
    Unmatched(s, 'p', 'p', 'y', 'g');
  }

  lemma NobwUnmatched(s: string)
    requires WithoutNobw(s)
    ensures !Waits(s)
  {
    WordLetters();
    Unmatched(s, 'n', 'o', 'b', 'w');
  }

  lemma DbgUnmatched(s: string)
    requires WithoutDbg(s)
    ensures !Waits(s)
  {
    WordLetters();
    Unmatched(s, 'd', 'd', 'b', 'g');
  }

  /** Pieces that lack letters of every word, with seams no match runs over. */
  ghost predicate CalmTail(a: string, b: string, c: string) {
    && WithoutNobw(a) && WithoutDbg(b) && WithoutPyw(c) && a != [] && b != [] && c != []
    && Seam(a[|a| - 1], b[0]) && Seam(b[|b| - 1], c[0])
  }

  lemma TailUnmatched(a: string, b: string, c: string)
    requires CalmTail(a, b, c)
    ensures !Waits(a + (b + c))
  {
    NobwUnmatched(a);
    DbgUnmatched(b);
    PywUnmatched(c);
    UnmatchedJoin(b, c);
    UnmatchedJoin(a, b + c);
  }

  lemma TailIsCalm()
    ensures CalmTail("supersedes ", "owner/repo#", "N' naming the elder")
  {
    var a, b, c := "supersedes ", "owner/repo#", "N' naming the elder";
    assert a[10] == ' ' && b[10] == '#';
    assert WithoutNobw(a);
    assert WithoutDbg(b);
    assert WithoutPyw(c);
  }

  ghost predicate CalmMiddle(a: string, b: string, c: string) {
    && WithoutPyw(a) && WithoutNobw(b) && WithoutPyw(c) && a != [] && b != [] && c != []
    && Seam(a[|a| - 1], b[0]) && Seam(b[|b| - 1], c[0])
  }

  lemma MiddleUnmatched(a: string, b: string, c: string, t: string)
    requires CalmMiddle(a, b, c) && !Waits(t) && t != [] && Seam(c[|c| - 1], t[0])
    ensures !Waits(a + (b + (c + t)))
  {
    PywUnmatched(a);
    NobwUnmatched(b);
    PywUnmatched(c);
    UnmatchedJoin(c, t);
    UnmatchedJoin(b, c + t);
    UnmatchedJoin(a, b + (c + t));
  }

  ghost predicate CalmHead(a: string, b: string, c: string, d: string) {
    && WithoutPyw(a) && WithoutPyg(b) && WithoutPyw(c) && WithoutPyg(d) && a != [] && b != [] && c != [] && d != []
    && Seam(a[|a| - 1], b[0]) && Seam(b[|b| - 1], c[0]) && Seam(c[|c| - 1], d[0])
  }

  lemma HeadUnmatched(a: string, b: string, c: string, d: string, t: string)
    requires CalmHead(a, b, c, d) && !Waits(t) && t != [] && Seam(d[|d| - 1], t[0])
    ensures !Waits(a + (b + (c + (d + t))))
  {
    PywUnmatched(a);
    PygUnmatched(b);
    PywUnmatched(c);
    PygUnmatched(d);
    UnmatchedJoin(d, t);
    UnmatchedJoin(c, d + t);
    UnmatchedJoin(b, c + (d + t));
    UnmatchedJoin(a, b + (c + (d + t)));
  }

  // ----- the reason of that repair

  const HEAD_A := REQUIRES + (OPEN + (" " + (Key(Blocker) + " ")))

  const HEAD_B := "owner: reason " + (CLOSE + " ")

  const HEAD_D := "exact blocker owner" + "; "

  const MIDDLE_A := "malformed noodles-relation '" + (RELATION + "': ")

  lemma HeadAIsCalm()
    ensures WithoutPyw(HEAD_A) && HEAD_A != [] && HEAD_A[|HEAD_A| - 1] == ' '
  {
    var a, b, c := REQUIRES, "noodles-", "blocker";
    assert WithoutPyw(a);
    assert WithoutPyw(b);
    assert WithoutPyw(c);
    assert Key(Blocker) == b + c + ":" && WithoutPyw(OPEN);
  }

  lemma HeadIsCalm()
    ensures CalmHead(HEAD_A, HEAD_B, "naming the ", HEAD_D) && HEAD_D[|HEAD_D| - 1] == ' '
  {
    var b, c, d := "owner: reason ", "naming the ", "exact blocker owner";
    HeadAIsCalm();
    assert b[0] == 'o' && c[0] == 'n' && c[10] == ' ' && d[0] == 'e' && "; "[1] == ' ';
    assert WithoutPyg(b);
    assert WithoutPyw(c);
    assert WithoutPyg(d);
    assert WithoutPyg(CLOSE) && WithoutPyg(" ") && WithoutPyg("; ");
  }

  lemma MiddleAIsCalm()
    ensures WithoutPyw(MIDDLE_A) && MIDDLE_A[0] == 'm' && MIDDLE_A[|MIDDLE_A| - 1] == ' '
  {
    var a, b, c := "malformed noodles-relation '", "noodles-", "state";
    assert a[0] == 'm' && "': "[2] == ' ';
    assert WithoutPyw(a);
    assert WithoutPyw(b);
    assert WithoutPyw(c);
    assert Key(State) == b + c + ":" && WithoutPyw(OPEN) && WithoutPyw(" blocked");
  }

  lemma MiddleIsCalm()
    ensures CalmMiddle(MIDDLE_A, "expected exactly ", "'enriches|")
  {
    var b, c := "expected exactly ", "'enriches|";
    MiddleAIsCalm();
    assert b[0] == 'e' && b[16] == ' ' && |b| == 17 && c[9] == '|' && |c| == 10;
    assert WithoutNobw(b);
    assert WithoutPyw(c);
  }

  lemma ReasonParts(r: string, o: string, k: string, w: string, c: string, n: string, e: string, sep: string,
                    a: string, x: string, q: string, m: string, t: string)
    ensures r + (o + (" " + (k + (" " + w)))) + (c + ((" " + n) + e)) + sep + (a + x + (q + (m + t)))
         == (r + (o + (" " + (k + " ")))) + ((w + (c + " ")) + (n + ((e + sep) + ((a + (x + q)) + (m + t)))))
  {
  }

  lemma SpacedPieces()
    ensures " owner: reason " == " " + "owner: reason " && " naming the " == " " + "naming the "
  {
  }

  lemma JoinTwo(a: string, b: string)
    ensures Join([a, b], "; ") == a + "; " + b
  {
    assert [a, b][1..] == [b];
  }

  lemma JoinedText(rules: Rules)
    requires rules.describe(BadToken(Relation)) == MALFORMED
    ensures Joined(rules, [BlockedRequires, BadToken(Relation)])
         == HEAD_A + (HEAD_B + ("naming the " + (HEAD_D + (MIDDLE_A + ("expected exactly "
            + ("'enriches|" + EXPECTED_TAIL))))))
  {
    var defects, asked := [BlockedRequires, BadToken(Relation)], Description(rules, BlockedRequires);
    assert Described(rules, defects) == [asked, MALFORMED];
    JoinTwo(asked, MALFORMED);
    SpacedPieces();
    ReasonParts(REQUIRES, OPEN, Key(Blocker), "owner: reason ", CLOSE, "naming the ", "exact blocker owner", "; ",
      "malformed noodles-relation '", RELATION, "': ", "expected exactly ", "'enriches|" + EXPECTED_TAIL);
  }

  const MIDDLE := MIDDLE_A + ("expected exactly " + ("'enriches|" + EXPECTED_TAIL))

  lemma ExpectedTailIsCalm()
    ensures !Waits(EXPECTED_TAIL) && EXPECTED_TAIL != []
  {
    TailIsCalm();
    TailUnmatched("supersedes ", "owner/repo#", "N' naming the elder");
  }

  lemma MiddleWholeIsCalm()
    ensures !Waits(MIDDLE) && MIDDLE != [] && MIDDLE[0] == 'm'
  {
    ExpectedTailIsCalm();
    MiddleAIsCalm();
    MiddleIsCalm();
    assert "'enriches|"[9] == '|';
    MiddleUnmatched(MIDDLE_A, "expected exactly ", "'enriches|", EXPECTED_TAIL);
  }

  /** The reason is written out, as it is no dependency prose. */
  lemma ReasonIsCalm(rules: Rules)
    requires rules.describe(BadToken(Relation)) == MALFORMED
    ensures !Waits(Joined(rules, [BlockedRequires, BadToken(Relation)]))
  {
    MiddleWholeIsCalm();
    HeadIsCalm();
    HeadUnmatched(HEAD_A, HEAD_B, "naming the ", HEAD_D, MIDDLE);
    JoinedText(rules);
  }

  // ----- how it reads

  lemma OwedByDefect(rules: Rules, original: Original, subject: string)
    requires DefectOf(rules, [], original, subject).Some? && Values(original.marks, Normalized) == []
    ensures Owes(rules, original, subject)
  {
  }

  lemma NotDerived(rules: Rules, original: Original, subject: string)
    requires DefectOf(rules, [], original, subject).Some?
    requires Values(original.marks, Role) != [] && Values(original.marks, Target) != []
    requires Values(original.marks, Subject) != []
    ensures !Derives(rules, original, subject)
  {
    assert DerivedHead(original, subject) == [];
  }

  lemma HeadFields(marks: seq<Mark>, role: string, target: string, subject: string, state: string, relation: string)
    requires Read(marks) == HeadReading(role, target, subject, state, relation, [])
    ensures Values(marks, Role) == [role] && Values(marks, Target) == [target]
    ensures Values(marks, Subject) == [subject] && Values(marks, State) == [state]
  {
    var r := Read(marks);
    assert r.role == [role] && r.target == [target] && r.subject == [subject] && r.state == [state];
  }

  lemma AuthoredBlocked(original: Original)
    requires Values(original.marks, State) == ["blocked"]
    ensures CanReadBlocked(original)
  {
    StripNothing("blocked");
  }

  lemma QuotingFields(original: Original, subject: string)
    requires QuotesState(original, subject)
    ensures Values(original.marks, Role) != [] && Values(original.marks, Target) != []
    ensures Values(original.marks, Subject) != [] && Values(original.marks, Normalized) == []
    ensures Values(original.marks, State) == ["blocked"]
  {
    HeadFields(original.marks, ROLE, Dependencies.RepoOf(subject), subject, "blocked", RELATION);
  }

  lemma QuotingIsOwed(rules: Rules, original: Original, subject: string)
    requires Dependencies.IsSubject(subject) && QuotesState(original, subject)
    ensures Owes(rules, original, subject) && !Derives(rules, original, subject)
  {
    QuotingFields(original, subject);
    FirstDiagnosis(rules, original, subject);
    OwedByDefect(rules, original, subject);
    NotDerived(rules, original, subject);
  }

  lemma QuotedMisreads(rules: Rules)
    requires rules.describe(BadToken(Relation)) == MALFORMED
    ensures Quoted(rules, [BlockedRequires, BadToken(Relation)], State) == ["blocked" + EXPECTED]
  {
    ReasonIsCalm(rules);
    MalformedIsScanned();
  }

  lemma QuotingStates(rules: Rules, original: Original, subject: string, header: seq<Mark>, defects: seq<Defect>)
    requires Values(original.marks, State) == ["blocked"] && defects == [BlockedRequires, BadToken(Relation)]
    requires rules.describe(BadToken(Relation)) == MALFORMED
    requires RepeatsQuoted(rules, original, Written(original, header), defects)
    ensures Values(Written(original, header).marks, State) == ["blocked" + EXPECTED, "blocked"]
  {
    QuotedMisreads(rules);
    assert Quoted(rules, defects, State) == ["blocked" + EXPECTED];
  }

  /** What an owed answer is made of. */
  lemma OwedAnswer(rules: Rules, original: Original, subject: string, digest: string, a: Answer)
    requires Answers(rules, original, subject, digest, a) && Owes(rules, original, subject)
    ensures a.Repaired? && (a.blocked <==> !Derives(rules, original, subject))
    ensures RepeatsQuoted(rules, original, Written(original, a.header), a.defects)
    ensures NamesDefects(Diagnoses(rules, original, subject), subject, a.defects)
  {
  }

  /** An issue whose author wrote a blocked state, in a comment that is a malformed relation too: its repair names
      the relation in the blocker, and the state that is read first is the diagnostic's own words. */
  lemma QuotingRepairMisreads(rules: Rules, original: Original, subject: string, digest: string, a: Answer)
    requires Dependencies.IsSubject(subject) && QuotesState(original, subject)
    requires !rules.admits(Relation, RELATION) && rules.describe(BadToken(Relation)) == MALFORMED
    requires Answers(rules, original, subject, digest, a)
    ensures CanReadBlocked(original) && a.Repaired? && a.blocked
    ensures Values(Written(original, a.header).marks, State) == ["blocked" + EXPECTED, "blocked"]
  {
    QuotingIsOwed(rules, original, subject);
    OwedAnswer(rules, original, subject, digest, a);
    QuotingDefects(rules, original, subject, a.defects);
    QuotingFields(original, subject);
    AuthoredBlocked(original);
    QuotingStates(rules, original, subject, a.header, a.defects);
  }
}
