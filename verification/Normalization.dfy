/** The one-shot intake repair: cure the head, derive the dependencies, stamp, and prove the claim of a
    migration against the exact parser (noodles.py:3409-3457). */
module Normalization {
  import opened Wrappers
  import opened Text
  import opened Intake
  import opened MarkerLines
  import opened NamedBlocker
  import opened CureLoop
  import opened RepairLines
  import opened BlockedRepair
  import Dependencies

  datatype Answer =
    NothingOwed | Repaired(header: seq<Mark>, blocked: bool, defects: seq<Defect>) | DidNotConverge | ProofRejected

  // ----- what an answer promises of the body that is written

  /** What keeps a blocked repair from being scheduled: a diagnostic, a blocked state or undeclared dependencies. */
  ghost predicate FailsClosed(rules: Rules, after: Original, subject: string) {
    || Diagnosis(rules, after, subject).Some?
    || Only(Values(after.marks, State)) == "blocked"
    || Values(after.marks, DependsOn) == []
  }

  /** What a blocked repair reads as: blocked exactly when the body can and its last diagnostic quotes no other state
      first, without dependencies exactly when none are authored, derivable or quoted, and accepted by the parser
      exactly when every defect has a cure. */
  ghost predicate ReadsAs(rules: Rules, original: Original, subject: string, after: Original, defects: seq<Defect>) {
    && FailsClosed(rules, after, subject)
    && (Only(Values(after.marks, State)) == "blocked"
       <==> CanReadBlocked(original) && !Spoils(rules, original, defects))
    && (Values(after.marks, DependsOn) == []
       <==> !Declares(original) && !AllMechanical(original.declarations, subject)
            && Quoted(rules, defects, DependsOn) == [])
    && (Diagnosis(rules, after, subject).None? <==> AllCured(defects, subject))
    && (BlockedRequires in defects ==> CanReadBlocked(original))
  }

  /** No authored marker, the blocker aside, is repeated but by what the last diagnostic quotes. */
  ghost predicate RepeatsQuoted(rules: Rules, original: Original, after: Original, defects: seq<Defect>) {
    forall n {:trigger Quoted(rules, defects, n)} :: n != Blocker && Values(original.marks, n) != [] ==>
      Values(after.marks, n) == Quoted(rules, defects, n) + Values(original.marks, n)
  }

  /** The defects named are those the cures meet, to the first that has none. */
  ghost predicate NamesDefects(diagnose: seq<Mark> -> Option<Defect>, subject: string, defects: seq<Defect>) {
    && Diagnosed(diagnose, subject, defects)
    && (AllCured(defects, subject) ==> diagnose(Cures(defects, subject)).None?)
  }

  /** What an answer to a body promises. */
  ghost predicate Answers(rules: Rules, original: Original, subject: string, digest: string, a: Answer) {
    match a
    case NothingOwed => !Owes(rules, original, subject)
    case Repaired(header, blocked, defects) =>
      var after := Written(original, header);
      && Owes(rules, original, subject)
      && (if blocked then !Derives(rules, original, subject) && ReadsAs(rules, original, subject, after, defects)
          else Derives(rules, original, subject) && Migrated(rules, original, subject, Read(after.marks)))
      && RepeatsQuoted(rules, original, after, defects)
      && NamesDefects(Diagnoses(rules, original, subject), subject, defects)
      && header != [] && header[|header| - 1] == Mark(Normalized, digest)
    case DidNotConverge => false
    case ProofRejected => false
  }

  lemma DerivedIsMigrated(rules: Rules, original: Original, subject: string, header: seq<Mark>, full: seq<Mark>,
                          defects: seq<Defect>, digest: string)
    requires Cured(rules, original, subject, header, defects, true) && Completed(original, subject, header, full, true)
    ensures Migrated(rules, original, subject, Read(full + [Mark(Normalized, digest)] + original.marks))
  {
    StampIsUnread(full, digest, original);
    if Declares(original) {
      MigratedHead(rules, original, subject, header);
    } else {
      var tokens :| Declared(original, subject, header, full, tokens);
      MigratedWithDependencies(rules, original, subject, header, tokens);
    }
  }

  lemma FirstDefect(rules: Rules, original: Original, subject: string, header: seq<Mark>, defects: seq<Defect>)
    requires Accounted(rules, original, subject, header, defects)
    ensures defects == [] ==> header == [] && DefectOf(rules, [], original, subject).None?
    ensures defects != [] ==> DefectOf(rules, [], original, subject) == Some(defects[0])
  {
    if defects != [] {
      assert DiagnosedAt(Diagnoses(rules, original, subject), subject, defects, 0);
      assert Cures(defects[..0], subject) == [];
    }
  }

  lemma OwedExact(
    rules: Rules, original: Original, subject: string, header: seq<Mark>, full: seq<Mark>, declared: bool)
    requires Completed(original, subject, header, full, declared) && Values(original.marks, Normalized) == []
    requires header != [] ==> DefectOf(rules, [], original, subject).Some?
    ensures Owes(rules, original, subject) <==> full != [] || DefectOf(rules, [], original, subject).Some?
  {
    if full != header { assert full != []; }
  }

  /** Work was done exactly when a repair is owed. */
  lemma WorkIsOwed(rules: Rules, original: Original, subject: string, header: seq<Mark>, full: seq<Mark>,
                   defects: seq<Defect>, derivable: bool, declared: bool)
    requires Values(original.marks, Normalized) == []
    requires Cured(rules, original, subject, header, defects, derivable)
    requires Completed(original, subject, header, full, declared)
    ensures Owes(rules, original, subject) <==> full != [] || defects != []
  {
    FirstDefect(rules, original, subject, header, defects);
    OwedExact(rules, original, subject, header, full, declared);
  }

  lemma DefectsAreNamed(
    rules: Rules, original: Original, subject: string, header: seq<Mark>, defects: seq<Defect>)
    requires Accounted(rules, original, subject, header, defects)
    ensures NamesDefects(Diagnoses(rules, original, subject), subject, defects)
  {
    if AllCured(defects, subject) { assert defects[..|header|] == defects; }
  }

  lemma ReadsAsParts(rules: Rules, original: Original, subject: string, after: Original, defects: seq<Defect>)
    requires FailsClosed(rules, after, subject) && (BlockedRequires in defects ==> CanReadBlocked(original))
    requires Only(Values(after.marks, State)) == "blocked" <==>
             CanReadBlocked(original) && !Spoils(rules, original, defects)
    requires Values(after.marks, DependsOn) == [] <==>
             !Declares(original) && !AllMechanical(original.declarations, subject)
             && Quoted(rules, defects, DependsOn) == []
    requires Diagnosis(rules, after, subject).None? <==> AllCured(defects, subject)
    ensures ReadsAs(rules, original, subject, after, defects)
  {
  }

  // ----- a repair that was asked for no blocker

  lemma NothingAsked(rules: Rules, defects: seq<Defect>, header: seq<Mark>, original: Original, subject: string,
                     full: seq<Mark>)
    requires BlockedRequires !in defects && Asks(header, original, defects)
    requires CureHeader(header, original, subject) && Extends(full, header, original)
    ensures Resolve(rules, defects, full) == full && forall n :: Quoted(rules, defects, n) == []
  {
    forall k | 0 <= k < |header| ensures header[k].name != Blocker { assert IsCure(header[k], original, subject); }
    ResolveNothing(rules, defects, full);
  }

  /** Its lines are read back as written. */
  lemma PlainRepair(original: Original, full: seq<Mark>, digest: string, n: Name)
    requires IsBody(original) && AllPlain(full) && IsHexDigest(digest) && n != Normalized
    ensures Values(Written(original, full + [Mark(Normalized, digest)]).marks, n) == Values(full + original.marks, n)
  {
    StampedIsRead(original, full, digest, n);
    OtherValues(full, Mark(Normalized, digest), original, n);
  }

  lemma PlainReads(original: Original, full: seq<Mark>, digest: string)
    requires IsBody(original) && AllPlain(full) && IsHexDigest(digest)
    ensures Read(Written(original, full + [Mark(Normalized, digest)]).marks) == Read(full + original.marks)
  {
    DigestIsPlain(digest);
    WrittenPlain(original, full + [Mark(Normalized, digest)]);
    StampIsUnread(full, digest, original);
  }

  lemma SameDiagnosis(rules: Rules, after: Original, header: seq<Mark>, original: Original, subject: string)
    requires Read(after.marks) == Read(header + original.marks) && after.citesProse == original.citesProse
    ensures Diagnosis(rules, after, subject) == DefectOf(rules, header, original, subject)
  {
  }

  lemma PlainReading(rules: Rules, original: Original, full: seq<Mark>, digest: string, subject: string)
    requires IsBody(original) && AllPlain(full) && IsHexDigest(digest)
    ensures var after := Written(original, full + [Mark(Normalized, digest)]);
            && Read(after.marks) == Read(full + original.marks)
            && Diagnosis(rules, after, subject) == DefectOf(rules, full, original, subject)
  {
    PlainReads(original, full, digest);
    SameDiagnosis(rules, Written(original, full + [Mark(Normalized, digest)]), full, original, subject);
  }

  lemma PlainRepeats(rules: Rules, original: Original, full: seq<Mark>, defects: seq<Defect>, digest: string)
    requires IsBody(original) && AllPlain(full) && IsHexDigest(digest) && FillsIn(full, original)
    requires (forall n :: Quoted(rules, defects, n) == []) && Values(original.marks, Normalized) == []
    ensures RepeatsQuoted(rules, original, Written(original, full + [Mark(Normalized, digest)]), defects)
  {
    var after := Written(original, full + [Mark(Normalized, digest)]);
    forall n | n != Blocker && Values(original.marks, n) != []
      ensures Values(after.marks, n) == Quoted(rules, defects, n) + Values(original.marks, n)
    {
      PlainRepair(original, full, digest, n);
      ValuesConcat(full, original.marks, n);
      FilledIn(full, original, n);
      assert [] + Values(original.marks, n) == Values(original.marks, n);
    }
  }

  lemma FilledIn(full: seq<Mark>, original: Original, n: Name)
    requires FillsIn(full, original) && n != Blocker && Values(original.marks, n) != []
    ensures Values(full, n) == []
  {
    NoValues(full, n);
    forall k | 0 <= k < |full| ensures full[k].name != n {
      assert full[k].name == Blocker || Values(original.marks, full[k].name) == [];
    }
  }

  /** Before the stamp its lines keep the repair from being scheduled. */
  lemma UnaskedClosed(rules: Rules, original: Original, subject: string, header: seq<Mark>, full: seq<Mark>,
                      defects: seq<Defect>, derivable: bool, declared: bool)
    requires !(derivable && declared) && Cured(rules, original, subject, header, defects, derivable)
    requires Completed(original, subject, header, full, declared)
    ensures || DefectOf(rules, full, original, subject).Some? || ReadsBlocked(full, original)
            || Values(full + original.marks, DependsOn) == []
  {
    ExtendsKeepsState(full, header, original);
    if DefectOf(rules, header, original, subject).Some? {
      ExtendsKeepsDefect(rules, full, header, original, subject);
    }
  }

  lemma UnaskedReadsAs(rules: Rules, original: Original, subject: string, header: seq<Mark>, full: seq<Mark>,
                       defects: seq<Defect>, digest: string, derivable: bool, declared: bool)
    requires IsBody(original) && Dependencies.IsSubject(subject) && IsHexDigest(digest) && !(derivable && declared)
    requires Cured(rules, original, subject, header, defects, derivable)
    requires Completed(original, subject, header, full, declared)
    requires BlockedRequires !in defects && forall n :: Quoted(rules, defects, n) == []
    ensures ReadsAs(rules, original, subject, Written(original, full + [Mark(Normalized, digest)]), defects)
  {
    var after := Written(original, full + [Mark(Normalized, digest)]);
    CompletedIsPlain(original, subject, header, full, declared);
    PlainReading(rules, original, full, digest, subject);
    PlainRepair(original, full, digest, State);
    PlainRepair(original, full, digest, DependsOn);
    ExtendsKeepsState(full, header, original);
    DeclaredReads(original, subject, header, full, declared);
    CompletedChangesNoVerdict(rules, original, subject, header, full, declared);
    UnaskedClosed(rules, original, subject, header, full, defects, derivable, declared);
    ReadsAsParts(rules, original, subject, after, defects);
  }

  // ----- a repair that was asked for one

  lemma PlaceholderIsNoHead(header: seq<Mark>)
    requires header != [] && header[|header| - 1] == Placeholder()
    ensures !OnlyHead(header)
  {
    assert header[|header| - 1].name !in HEAD;
  }

  /** Head and state of the lines before the defects are named. */
  lemma AskedHead(header: seq<Mark>, full: seq<Mark>, original: Original, defects: seq<Defect>)
    requires Asks(header, original, defects) && BlockedRequires in defects && Closes(header, original)
    requires Extends(full, header, original)
    ensures ReadsBlocked(header, original) && ReadsBlocked(full, original)
    ensures HeadDefect(Read(full + original.marks)).None?
    ensures Values(full, State) == [] <==> Values(original.marks, State) != []
  {
    PlaceholderIsNoHead(header);
    ExtendsKeepsState(full, header, original);
    ExtendsKeepsHead(full, header, original);
    HeadHasState(Read(full + original.marks));
    OneState(full, original);
  }

  lemma OneState(full: seq<Mark>, original: Original)
    requires |Values(full + original.marks, State)| == 1
    ensures Values(full, State) == [] <==> Values(original.marks, State) != []
  {
    ValuesConcat(full, original.marks, State);
  }

  lemma HeadHasState(r: Reading)
    requires HeadDefect(r).None?
    ensures |r.state| == 1
  {
  }

  lemma ExtendsKeepsHead(full: seq<Mark>, header: seq<Mark>, original: Original)
    requires Extends(full, header, original)
    ensures HeadDefect(Read(full + original.marks)) == HeadDefect(Read(header + original.marks))
  {
    if full != header {
      var v :| full == header + [Mark(DependsOn, v)] && Values(header + original.marks, DependsOn) == [];
      DependenciesAdded(header, v, original);
    }
  }

  /** Its parts, name by name. */
  lemma AskedParts(rules: Rules, original: Original, subject: string, header: seq<Mark>, full: seq<Mark>,
                   defects: seq<Defect>, digest: string, derivable: bool, declared: bool) returns (y: seq<Mark>)
    requires IsBody(original) && Dependencies.IsSubject(subject) && IsHexDigest(digest)
    requires Cured(rules, original, subject, header, defects, derivable) && BlockedRequires in defects
    requires Completed(original, subject, header, full, declared)
    ensures header != [] && AsksAt(defects, |header| - 1)
    ensures HasParts(rules, original, defects, |header| - 1, full, y,
                     Written(original, Blocked(rules, defects, full, digest)).marks)
  {
    var j, front, x := |header| - 1, Front(header), Written(original, Blocked(rules, defects, full, digest)).marks;
    CompletedIsPlain(original, subject, header, full, declared);
    SplitsAt(original, header, full);
    if |defects| == |header| + 1 { UncuredIsLast(rules, original, subject, header, defects); }
    var tail := full[|header|..];
    y := Unquoted(rules, original, defects, j, front, tail);
    forall n ensures HasPart(rules, original, defects, j, full, y, x, n) {
      AfterValues(rules, original, defects, j, full, front, tail, digest, n);
    }
  }

  lemma NothingLast(rules: Rules, header: seq<Mark>, defects: seq<Defect>, subject: string)
    requires header != [] && AsksAt(defects, |header| - 1) && AllCured(defects, subject) && |defects| == |header|
    ensures forall n :: Quoted(rules, defects, n) == []
  {
    forall n ensures Quoted(rules, defects, n) == [] { NothingQuoted(rules, defects, n); }
  }

  lemma ManyStates(rules: Rules, r: Reading, citesProse: bool, subject: string)
    requires |r.state| > 1
    ensures Parse(rules, r, citesProse, subject).Some?
  {
  }

  lemma PartsFailClosed(rules: Rules, original: Original, subject: string, defects: seq<Defect>, j: nat,
                        full: seq<Mark>, y: seq<Mark>, after: Original)
    requires AsksAt(defects, j) && HasParts(rules, original, defects, j, full, y, after.marks)
    requires ReadsBlocked(full, original)
    requires Values(full, State) == [] <==> Values(original.marks, State) != []
    ensures FailsClosed(rules, after, subject)
  {
    StateRead(rules, original, defects, j, full, y, after.marks);
    if Quoted(rules, defects, State) != [] { ManyStates(rules, Read(after.marks), after.citesProse, subject); }
  }

  lemma PartsReadAs(rules: Rules, original: Original, subject: string, defects: seq<Defect>, j: nat,
                    full: seq<Mark>, y: seq<Mark>, after: Original)
    requires AsksAt(defects, j) && HasParts(rules, original, defects, j, full, y, after.marks)
    requires ReadsBlocked(full, original) && HeadDefect(Read(full + original.marks)).None? && CanReadBlocked(original)
    requires Values(full, State) == [] <==> Values(original.marks, State) != []
    requires DefectOf(rules, full, original, subject).None? <==> AllCured(defects, subject)
    requires AllCured(defects, subject) ==> forall n :: Quoted(rules, defects, n) == []
    requires Values(full + original.marks, DependsOn) == [] <==>
             !Declares(original) && !AllMechanical(original.declarations, subject)
    requires after.citesProse == original.citesProse
    ensures ReadsAs(rules, original, subject, after, defects)
  {
    PartsFailClosed(rules, original, subject, defects, j, full, y, after);
    StateRead(rules, original, defects, j, full, y, after.marks);
    DependenciesRead(rules, original, defects, j, full, y, after.marks);
    BlockedVerdict(rules, original, subject, defects, j, full, y, after.marks);
    ReadsAsParts(rules, original, subject, after, defects);
  }

  lemma AskedReadsAs(rules: Rules, original: Original, subject: string, header: seq<Mark>, full: seq<Mark>,
                     defects: seq<Defect>, digest: string, derivable: bool, declared: bool)
    requires IsBody(original) && Dependencies.IsSubject(subject) && IsHexDigest(digest)
    requires Cured(rules, original, subject, header, defects, derivable) && BlockedRequires in defects
    requires Completed(original, subject, header, full, declared) && Values(original.marks, Normalized) == []
    ensures var after := Written(original, Blocked(rules, defects, full, digest));
            && ReadsAs(rules, original, subject, after, defects)
            && RepeatsQuoted(rules, original, after, defects)
  {
    var after, j := Written(original, Blocked(rules, defects, full, digest)), |header| - 1;
    var y := AskedParts(rules, original, subject, header, full, defects, digest, derivable, declared);
    AskedHead(header, full, original, defects);
    CompletedChangesNoVerdict(rules, original, subject, header, full, declared);
    CuredQuotesNothing(rules, original, header, defects, subject);
    DeclaredReads(original, subject, header, full, declared);
    PartsReadAs(rules, original, subject, defects, j, full, y, after);
    AskedRepeats(rules, original, defects, j, full, y, after);
  }

  lemma CuredQuotesNothing(
    rules: Rules, original: Original, header: seq<Mark>, defects: seq<Defect>, subject: string)
    requires BlockedRequires in defects && Asks(header, original, defects)
    requires Accounted(rules, original, subject, header, defects)
    ensures AllCured(defects, subject) ==> forall n :: Quoted(rules, defects, n) == []
  {
    if AllCured(defects, subject) { NothingLast(rules, header, defects, subject); }
  }

  lemma AskedRepeats(rules: Rules, original: Original, defects: seq<Defect>, j: nat, full: seq<Mark>, y: seq<Mark>,
                     after: Original)
    requires AsksAt(defects, j) && HasParts(rules, original, defects, j, full, y, after.marks)
    requires FillsIn(full, original) && Values(original.marks, Normalized) == []
    ensures RepeatsQuoted(rules, original, after, defects)
  {
    forall n | n != Blocker && Values(original.marks, n) != []
      ensures Values(after.marks, n) == Quoted(rules, defects, n) + Values(original.marks, n)
    {
      FilledIn(full, original, n);
      AuthoredRead(rules, original, defects, j, full, y, after.marks, n);
    }
  }

  // ----- the repair

  lemma DerivedAsksNothing(header: seq<Mark>, original: Original, defects: seq<Defect>)
    requires OnlyHead(header) && Asks(header, original, defects)
    ensures BlockedRequires !in defects
  {
    if BlockedRequires in defects { PlaceholderIsNoHead(header); }
  }

  /** A fully derived repair is a migration, and the proof-parse passes it. */
  lemma MigrationAnswers(rules: Rules, original: Original, subject: string, header: seq<Mark>, full: seq<Mark>,
                         defects: seq<Defect>, digest: string)
    requires IsBody(original) && Dependencies.IsSubject(subject) && IsHexDigest(digest)
    requires Owes(rules, original, subject)
    requires Cured(rules, original, subject, header, defects, true) && Completed(original, subject, header, full, true)
    ensures Answers(rules, original, subject, digest, Repaired(full + [Mark(Normalized, digest)], false, defects))
    ensures Diagnosis(rules, Written(original, full + [Mark(Normalized, digest)]), subject).None?
  {
    CompletedIsPlain(original, subject, header, full, true);
    PlainReading(rules, original, full, digest, subject);
    DerivedIsMigrated(rules, original, subject, header, full, defects, digest);
    StampIsUnread(full, digest, original);
    DerivedAsksNothing(header, original, defects);
    NothingAsked(rules, defects, header, original, subject, full);
    PlainRepeats(rules, original, full, defects, digest);
    DefectsAreNamed(rules, original, subject, header, defects);
  }

  /** A repair that is not a migration reads as promised, whatever its diagnostics quote. */
  lemma BlockedReadsAs(rules: Rules, original: Original, subject: string, header: seq<Mark>, full: seq<Mark>,
                       defects: seq<Defect>, digest: string, derivable: bool, declared: bool)
    requires IsBody(original) && Dependencies.IsSubject(subject) && IsHexDigest(digest) && !(derivable && declared)
    requires Cured(rules, original, subject, header, defects, derivable)
    requires Completed(original, subject, header, full, declared) && Values(original.marks, Normalized) == []
    ensures var after := Written(original, Blocked(rules, defects, full, digest));
            && ReadsAs(rules, original, subject, after, defects)
            && RepeatsQuoted(rules, original, after, defects)
  {
    if BlockedRequires in defects {
      AskedReadsAs(rules, original, subject, header, full, defects, digest, derivable, declared);
    } else {
      CompletedIsPlain(original, subject, header, full, declared);
      NothingAsked(rules, defects, header, original, subject, full);
      UnaskedReadsAs(rules, original, subject, header, full, defects, digest, derivable, declared);
      PlainRepeats(rules, original, full, defects, digest);
    }
  }

  lemma LeftUnderived(rules: Rules, original: Original, subject: string, header: seq<Mark>, full: seq<Mark>,
                   defects: seq<Defect>, derivable: bool, declared: bool)
    requires Cured(rules, original, subject, header, defects, derivable)
    requires Completed(original, subject, header, full, declared) && !(derivable && declared)
    ensures !Derives(rules, original, subject)
  {
  }

  lemma AnswersBlocked(
    rules: Rules, original: Original, subject: string, digest: string, header: seq<Mark>, defects: seq<Defect>)
    requires Owes(rules, original, subject) && !Derives(rules, original, subject)
    requires ReadsAs(rules, original, subject, Written(original, header), defects)
    requires RepeatsQuoted(rules, original, Written(original, header), defects)
    requires NamesDefects(Diagnoses(rules, original, subject), subject, defects)
    requires header != [] && header[|header| - 1] == Mark(Normalized, digest)
    ensures Answers(rules, original, subject, digest, Repaired(header, true, defects))
  {
  }

  lemma BlockedAnswers(rules: Rules, original: Original, subject: string, header: seq<Mark>, full: seq<Mark>,
                       defects: seq<Defect>, digest: string, derivable: bool, declared: bool)
    requires IsBody(original) && Dependencies.IsSubject(subject) && IsHexDigest(digest)
    requires Owes(rules, original, subject) && !(derivable && declared)
    requires Cured(rules, original, subject, header, defects, derivable)
    requires Completed(original, subject, header, full, declared)
    ensures Answers(rules, original, subject, digest, Repaired(Blocked(rules, defects, full, digest), true, defects))
  {
    BlockedReadsAs(rules, original, subject, header, full, defects, digest, derivable, declared);
    DefectsAreNamed(rules, original, subject, header, defects);
    LeftUnderived(rules, original, subject, header, full, defects, derivable, declared);
    AnswersBlocked(rules, original, subject, digest, Blocked(rules, defects, full, digest), defects);
  }

  /** The answers at the three ends of the repair. */
  lemma RepairAnswers(rules: Rules, original: Original, subject: string, header: seq<Mark>, full: seq<Mark>,
                      defects: seq<Defect>, digest: string, derivable: bool, declared: bool)
    requires IsBody(original) && Dependencies.IsSubject(subject) && IsHexDigest(digest)
    requires Cured(rules, original, subject, header, defects, derivable)
    requires Completed(original, subject, header, full, declared) && Values(original.marks, Normalized) == []
    ensures full == [] && defects == [] ==> Answers(rules, original, subject, digest, NothingOwed)
    ensures (full != [] || defects != []) && derivable && declared ==>
              && Diagnosis(rules, Written(original, full + [Mark(Normalized, digest)]), subject).None?
              && Answers(rules, original, subject, digest, Repaired(full + [Mark(Normalized, digest)], false, defects))
    ensures (full != [] || defects != []) && !(derivable && declared) ==>
              Answers(rules, original, subject, digest, Repaired(Blocked(rules, defects, full, digest), true, defects))
  {
    WorkIsOwed(rules, original, subject, header, full, defects, derivable, declared);
    if full != [] || defects != [] {
      if derivable && declared {
        MigrationAnswers(rules, original, subject, header, full, defects, digest);
      } else {
        BlockedAnswers(rules, original, subject, header, full, defects, digest, derivable, declared);
      }
    }
  }

  // ----- the lines of a repair

  /** The line that answers a defect: its cure, the blocker naming all the defects. */
  ghost predicate AnswersDefect(rules: Rules, defects: seq<Defect>, subject: string, d: Defect, m: Mark) {
    if d == BlockedRequires then m == Mark(Blocker, "intake-normalizer: " + Reason(rules, defects))
    else Cure(d, subject).Some? && m == Cure(d, subject).value.0
  }

  /** The lines are those that answer the defects, in order, all but a last one that has no cure; then the
      dependencies the declarations name, when the author left them out and every declaration is mechanical; then
      the receipt. */
  ghost predicate Lists(rules: Rules, original: Original, subject: string, digest: string, header: seq<Mark>,
                        defects: seq<Defect>, n: nat)
  {
    && n <= |defects| <= n + 1 && n < |header| && (n < |defects| ==> Cure(defects[n], subject).None?)
    && (forall k :: 0 <= k < n ==> AnswersDefect(rules, defects, subject, defects[k], header[k]))
    && (if !Declares(original) && AllMechanical(original.declarations, subject) then
          exists tokens :: && Dependencies.Derivable(original.declarations, subject, tokens)
                           && header[n..] == [Mark(DependsOn, Dependencies.Rendered(tokens)), Mark(Normalized, digest)]
        else header[n..] == [Mark(Normalized, digest)])
  }

  lemma CureIsAnswered(rules: Rules, defects: seq<Defect>, subject: string, d: Defect, m: Mark)
    requires Cure(d, subject).Some? && m == Cure(d, subject).value.0
    ensures AnswersDefect(rules, defects, subject, d,
                          if m == Placeholder() then Mark(Blocker, Named(Reason(rules, defects))) else m)
  {
    CureOfMissingNames(d, subject);
    assert OWNER + ": " == "intake-normalizer: ";
  }

  lemma AccountedCures(rules: Rules, original: Original, subject: string, header: seq<Mark>, defects: seq<Defect>)
    requires Accounted(rules, original, subject, header, defects)
    ensures CuresAll(header, defects, subject)
  {
  }

  lemma CuredCures(rules: Rules, original: Original, subject: string, header: seq<Mark>, defects: seq<Defect>,
                   derivable: bool)
    requires Cured(rules, original, subject, header, defects, derivable)
    ensures CuresAll(header, defects, subject)
    ensures derivable ==> OnlyHead(header)
  {
    AccountedCures(rules, original, subject, header, defects);
  }

  lemma LinesAnswer(rules: Rules, subject: string, header: seq<Mark>, defects: seq<Defect>)
    requires CuresAll(header, defects, subject)
    ensures forall k :: 0 <= k < |header| ==>
              AnswersDefect(rules, defects, subject, defects[k], Resolve(rules, defects, header)[k])
    ensures |header| < |defects| ==> Cure(defects[|header|], subject).None?
  {
    var n := |header|;
    forall k | 0 <= k < n
      ensures AnswersDefect(rules, defects, subject, defects[k], Resolve(rules, defects, header)[k])
    {
      assert defects[..n][k] == defects[k];
      CureIsAnswered(rules, defects, subject, defects[k], header[k]);
    }
    if n < |defects| { LastIsUncured(defects, subject, n); }
  }

  lemma ResolvedLines(rules: Rules, defects: seq<Defect>, header: seq<Mark>, m: Mark)
    requires m.name != Blocker
    ensures Resolve(rules, defects, header + [m]) == Resolve(rules, defects, header) + [m]
  {
    assert m != Placeholder();
  }

  lemma RepairLists(rules: Rules, original: Original, subject: string, header: seq<Mark>, full: seq<Mark>,
                    defects: seq<Defect>, digest: string, declared: bool)
    requires CuresAll(header, defects, subject) && Completed(original, subject, header, full, declared)
    ensures Lists(rules, original, subject, digest, Resolve(rules, defects, full) + [Mark(Normalized, digest)], defects,
                  |header|)
  {
    var front, stamp := Resolve(rules, defects, header), [Mark(Normalized, digest)];
    LinesAnswer(rules, subject, header, defects);
    if full == header {
      assert (front + stamp)[|header|..] == stamp;
    } else {
      var tokens :| Declared(original, subject, header, full, tokens);
      var line := Mark(DependsOn, Dependencies.Rendered(tokens));
      ResolvedLines(rules, defects, header, line);
      assert (front + [line] + stamp)[|header|..] == [line] + stamp;
    }
  }

  lemma LastIsUncured(defects: seq<Defect>, subject: string, n: nat)
    requires |defects| == n + 1 && AllCured(defects[..n], subject) && !AllCured(defects, subject)
    ensures Cure(defects[n], subject).None?
  {
    assert forall k :: 0 <= k < n ==> defects[..n][k] == defects[k];
  }

  /** A repair with derived lines alone holds no placeholder to name. */
  lemma DerivedResolves(rules: Rules, original: Original, subject: string, header: seq<Mark>, full: seq<Mark>,
                        defects: seq<Defect>, declared: bool)
    requires Completed(original, subject, header, full, declared)
    requires OnlyHead(header)
    ensures Resolve(rules, defects, full) == full
  {
    if full != header { var tokens :| Declared(original, subject, header, full, tokens); }
    ResolveNothing(rules, defects, full);
  }

  /** intake_normalization: both raises are unreachable, and the answer is what the body calls for. */
  method IntakeNormalization(rules: Rules, original: Original, subject: string, digest: string) returns (a: Answer)
    requires IsBody(original) && Dependencies.IsSubject(subject) && Dependencies.WellRead(original.declarations)
    requires IsHexDigest(digest)
    ensures Answers(rules, original, subject, digest, a)
    ensures a.Repaired? ==> exists n :: Lists(rules, original, subject, digest, a.header, a.defects, n)
  {
    if Values(original.marks, Normalized) != [] {
      return NothingOwed;
    }
    var header, defects, derivable, converged := CureHead(rules, original, subject);
    if !converged {
      return DidNotConverge;
    }
    var full, declared := DeclareDependencies(original, subject, header);
    RepairAnswers(rules, original, subject, header, full, defects, digest, derivable, declared);
    if full == [] && defects == [] {
      return NothingOwed;
    }
    var stamp := Mark(Normalized, digest);
    CuredCures(rules, original, subject, header, defects, derivable);
    RepairLists(rules, original, subject, header, full, defects, digest, declared);
    if derivable && declared {
      DerivedResolves(rules, original, subject, header, full, defects, declared);
      if Diagnosis(rules, Written(original, full + [stamp]), subject).Some? {
        return ProofRejected;
      }
      return Repaired(full + [stamp], false, defects);
    }
    a := Repaired(Resolve(rules, defects, full) + [stamp], true, defects);
  }

  /** The stamp is read back from the written body, so a second pass owes nothing. */
  lemma WrittenOwesNothing(rules: Rules, header: seq<Mark>, digest: string, original: Original, subject: string)
    requires IsBody(original) && IsHexDigest(digest)
    ensures !Owes(rules, Written(original, header + [Mark(Normalized, digest)]), subject)
  {
    var stamp := Mark(Normalized, digest);
    WrittenReads(original, header + [stamp], Normalized);
    ScanLines(header, [stamp], Normalized);
    DigestIsPlain(digest);
    LineAlone(stamp);
    LineIsRead(stamp, Normalized);
  }
}
