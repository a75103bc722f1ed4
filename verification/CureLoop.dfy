/** The cure loop of the intake repair: parse, add the one line the diagnostic asks for, parse again
    (noodles.py:3417-3434). */
module CureLoop {
  import opened Wrappers
  import opened Text
  import opened Intake
  import opened MarkerLines
  import opened NamedBlocker
  import Dependencies

  /** The body satisfies the parser under the derivable head markers alone. */
  predicate HeadDerives(rules: Rules, original: Original, subject: string) {
    DefectOf(rules, DerivedHead(original, subject), original, subject).None?
  }

  ghost predicate ReadsBlocked(header: seq<Mark>, original: Original) {
    Only(Values(header + original.marks, State)) == "blocked"
  }

  /** A line whose value is a fail-closed default comes only with a blocked state. */
  ghost predicate Closes(header: seq<Mark>, original: Original) {
    OnlyHead(header) || ReadsBlocked(header, original)
  }

  lemma AddedLine(header: seq<Mark>, m: Mark, original: Original, name: Name)
    ensures Values(header + [m] + original.marks, name)
         == Values(header, name) + Valued(m, name) + Values(original.marks, name)
  {
    ValuesConcat(header + [m], original.marks, name);
    ValuesConcat(header, [m], name);
    assert [m][1..] == [];
  }

  lemma OtherValues(header: seq<Mark>, m: Mark, original: Original, name: Name)
    requires m.name != name
    ensures Values(header + [m] + original.marks, name) == Values(header + original.marks, name)
  {
    AddedLine(header, m, original, name);
    ValuesConcat(header, original.marks, name);
    assert Values(header, name) + [] == Values(header, name);
  }

  lemma BlockedIsRead(header: seq<Mark>, original: Original)
    requires Values(header + original.marks, State) == []
    ensures ReadsBlocked(header + [Mark(State, "blocked")], original)
  {
    AddedLine(header, Mark(State, "blocked"), original, State);
    ValuesConcat(header, original.marks, State);
    StripNothing("blocked");
  }

  lemma UnreadMeansBlocked(rules: Rules, vs: seq<string>, state: string)
    requires BlockerDefect(rules, vs, state) == Some(BlockedRequires)
    ensures state == "blocked"
  {
  }

  lemma BlockerCloses(rules: Rules, header: seq<Mark>, original: Original, subject: string)
    requires DefectOf(rules, header, original, subject) == Some(BlockedRequires)
    ensures ReadsBlocked(header + [Placeholder()], original)
  {
    var marks := header + original.marks;
    BlockedMeansUnread(rules, Read(marks), original.citesProse, subject);
    UnreadMeansBlocked(rules, Values(marks, Blocker), Only(Values(marks, State)));
    OtherValues(header, Placeholder(), original, State);
  }

  lemma StateCloses(rules: Rules, header: seq<Mark>, original: Original, subject: string)
    requires DefectOf(rules, header, original, subject) == Some(Missing(State))
    ensures ReadsBlocked(header + [Mark(State, "blocked")], original)
  {
    var marks := header + original.marks;
    MissingIsMissing(rules, Read(marks), original.citesProse, subject, State);
    HeadMisses(Read(marks), State, marks);
    BlockedIsRead(header, original);
  }

  lemma HeadCloses(header: seq<Mark>, m: Mark, original: Original)
    requires Closes(header, original) && m.name in HEAD
    ensures Closes(header + [m], original)
  {
    OtherValues(header, m, original, State);
    OnlyHeadNext(header, m);
  }

  lemma CureOf(d: Defect, subject: string)
    requires Cure(d, subject).Some?
    ensures Cure(d, subject).value.1 <==> Cure(d, subject).value.0.name in HEAD
    ensures d == BlockedRequires || d == Missing(State) || Cure(d, subject).value.1
    ensures Cure(BlockedRequires, subject).value.0 == Placeholder()
    ensures Cure(Missing(State), subject).value.0 == Mark(State, "blocked")
  {
  }

  /** Every cure keeps defaults behind a blocked state. */
  lemma CureCloses(rules: Rules, header: seq<Mark>, original: Original, subject: string, d: Defect)
    requires Closes(header, original)
    requires DefectOf(rules, header, original, subject) == Some(d) && Cure(d, subject).Some?
    ensures Closes(header + [Cure(d, subject).value.0], original)
    ensures Cure(d, subject).value.1 <==> Cure(d, subject).value.0.name in HEAD
  {
    CureOf(d, subject);
    if d == BlockedRequires {
      BlockerCloses(rules, header, original, subject);
    } else if d == Missing(State) {
      StateCloses(rules, header, original, subject);
    } else {
      HeadCloses(header, Cure(d, subject).value.0, original);
    }
  }

  /** While the body is derivable every diagnostic asks for a derivable head marker. */
  lemma DerivableIsCured(rules: Rules, header: seq<Mark>, original: Original, subject: string)
    requires CureHeader(header, original, subject) && OnlyHead(header) && HeadDerives(rules, original, subject)
    ensures AtMostHead(DefectOf(rules, header, original, subject))
  {
    HeaderIsPart(header, original, subject);
    PartAsksForHead(rules, Read(header + original.marks), Read(DerivedHead(original, subject) + original.marks),
      original.citesProse, subject);
  }

  lemma HeadIsCured(d: Defect, subject: string)
    requires AtMostHead(Some(d))
    ensures Cure(d, subject).Some? && Cure(d, subject).value.1
  {
  }

  lemma CuredIsWhole(rules: Rules, header: seq<Mark>, original: Original, subject: string)
    requires CureHeader(header, original, subject) && OnlyHead(header)
    requires DefectOf(rules, header, original, subject).None?
    ensures Read(header + original.marks) == Read(DerivedHead(original, subject) + original.marks)
    ensures HeadDerives(rules, original, subject)
  {
    HeaderIsPart(header, original, subject);
    SatisfiedPartIsWhole(rules, Read(header + original.marks), Read(DerivedHead(original, subject) + original.marks),
      original.citesProse, subject);
  }

  // ----- when a repair reads as blocked

  /** The head markers the parser asks for before the state are authored at most once. */
  predicate HeadUnrepeated(original: Original) {
    |Values(original.marks, Role)| <= 1 && |Values(original.marks, Target)| <= 1
      && |Values(original.marks, Subject)| <= 1
  }

  /** The author wrote a blocked state, or left the state out and repeats no head marker before it. */
  predicate CanReadBlocked(original: Original) {
    || Only(Values(original.marks, State)) == "blocked"
    || (Values(original.marks, State) == [] && HeadUnrepeated(original))
  }

  lemma ValuesOfBoth(header: seq<Mark>, original: Original, name: Name)
    ensures |Values(header + original.marks, name)| == |Values(header, name)| + |Values(original.marks, name)|
  {
    ValuesConcat(header, original.marks, name);
  }

  /** A state is asked for only when the three markers before it stand once. */
  lemma StateIsAskedLast(r: Reading)
    requires HeadDefect(r) == Some(Missing(State))
    ensures |r.role| == |r.target| == |r.subject| == 1
  {
  }

  lemma StateAsksUnrepeated(rules: Rules, header: seq<Mark>, original: Original, subject: string)
    requires DefectOf(rules, header, original, subject) == Some(Missing(State))
    ensures HeadUnrepeated(original)
  {
    var r := Read(header + original.marks);
    MissingIsMissing(rules, r, original.citesProse, subject, State);
    StateIsAskedLast(r);
    ValuesOfBoth(header, original, Role);
    ValuesOfBoth(header, original, Target);
    ValuesOfBoth(header, original, Subject);
  }

  /** Without a state the parser's first diagnostic is a missing or a repeated head marker. */
  lemma NoStateIsHeadDefect(rules: Rules, r: Reading, citesProse: bool, subject: string)
    requires r.state == []
    ensures var d := Parse(rules, r, citesProse, subject);
            d.Some? && ((d.value.Missing? && Cure(d.value, subject).Some?)
                        || d == Some(Duplicate(Role)) || d == Some(Duplicate(Target)) || d == Some(Duplicate(Subject)))
    ensures Parse(rules, r, citesProse, subject) == HeadDefect(r)
  {
  }

  /** A name the header fills in is not authored, and is filled in once. */
  lemma CuresFillGaps(header: seq<Mark>, original: Original, subject: string, name: Name)
    requires CureHeader(header, original, subject) && name != Blocker
    ensures |Values(header, name)| <= 1 && (Values(header, name) == [] || Values(original.marks, name) == [])
  {
    DistinctValues(header, name);
    NoValues(header, name);
    if Values(header, name) != [] {
      var k :| 0 <= k < |header| && header[k].name == name;
      assert IsCure(header[k], original, subject);
    }
  }

  lemma RepeatedIsAuthored(header: seq<Mark>, original: Original, subject: string, name: Name)
    requires CureHeader(header, original, subject) && name in HEAD && |Values(header + original.marks, name)| > 1
    ensures |Values(original.marks, name)| > 1
  {
    ValuesOfBoth(header, original, name);
    CuresFillGaps(header, original, subject, name);
  }

  lemma DuplicateIsRepeated(r: Reading, name: Name)
    requires HeadDefect(r) == Some(Duplicate(name)) && name in HEAD
    ensures |if name == Role then r.role else if name == Target then r.target else r.subject| > 1
  {
  }

  lemma StateLine(header: seq<Mark>, original: Original, subject: string)
    requires CureHeader(header, original, subject) && State in NamesOf(header)
    ensures Values(original.marks, State) == [] && Values(header, State) == ["blocked"]
  {
    var k :| 0 <= k < |header| && NamesOf(header)[k] == State;
    assert IsCure(header[k], original, subject);
    assert header[k] == Mark(State, "blocked");
    NoValues(header, State);
    DistinctValues(header, State);
    SoleValue(Values(header, State), "blocked");
  }

  lemma NoStateLine(header: seq<Mark>)
    requires State !in NamesOf(header)
    ensures Values(header, State) == []
  {
    NoValues(header, State);
    forall k | 0 <= k < |header| ensures header[k].name != State { assert NamesOf(header)[k] != State; }
  }

  lemma StateLineReads(header: seq<Mark>, original: Original, subject: string)
    requires CureHeader(header, original, subject)
    ensures State in NamesOf(header) ==> Values(original.marks, State) == [] && ReadsBlocked(header, original)
    ensures State !in NamesOf(header) ==> Values(header + original.marks, State) == Values(original.marks, State)
  {
    ValuesConcat(header, original.marks, State);
    if State in NamesOf(header) {
      StateLine(header, original, subject);
      assert ["blocked"] + [] == ["blocked"];
      StripNothing("blocked");
    } else {
      NoStateLine(header);
      assert [] + Values(original.marks, State) == Values(original.marks, State);
    }
  }

  /** Where the cure loop stops, the body reads as blocked exactly when it can. */
  lemma StoppedReadsBlocked(rules: Rules, header: seq<Mark>, original: Original, subject: string)
    requires CureHeader(header, original, subject) && (State in NamesOf(header) ==> HeadUnrepeated(original))
    requires var d := DefectOf(rules, header, original, subject); d.None? || Cure(d.value, subject).None?
    ensures ReadsBlocked(header, original) <==> CanReadBlocked(original)
  {
    var marks := header + original.marks;
    StateLineReads(header, original, subject);
    if State !in NamesOf(header) && Values(original.marks, State) == [] {
      NoStateIsHeadDefect(rules, Read(marks), original.citesProse, subject);
      var d := DefectOf(rules, header, original, subject).value;
      DuplicateIsRepeated(Read(marks), d.name);
      RepeatedIsAuthored(header, original, subject, d.name);
    }
  }

  // ----- the loop

  predicate AllCured(defects: seq<Defect>, subject: string) {
    forall k :: 0 <= k < |defects| ==> Cure(defects[k], subject).Some?
  }

  /** The lines that cure these defects, one each. */
  function Cures(defects: seq<Defect>, subject: string): (r: seq<Mark>)
    requires AllCured(defects, subject)
    ensures |r| == |defects|
  {
    seq(|defects|, k requires 0 <= k < |defects| => Cure(defects[k], subject).value.0)
  }

  /** The parser's first diagnostic on a body, under each header. */
  function Diagnoses(rules: Rules, original: Original, subject: string): seq<Mark> -> Option<Defect> {
    (header: seq<Mark>) => DefectOf(rules, header, original, subject)
  }

  /** Each defect is the diagnostic under the cures of those before it. */
  ghost predicate Diagnosed(diagnose: seq<Mark> -> Option<Defect>, subject: string, defects: seq<Defect>) {
    forall k :: 0 <= k < |defects| ==> DiagnosedAt(diagnose, subject, defects, k)
  }

  ghost predicate DiagnosedAt(diagnose: seq<Mark> -> Option<Defect>, subject: string, defects: seq<Defect>, k: nat)
    requires k < |defects|
  {
    AllCured(defects[..k], subject) && diagnose(Cures(defects[..k], subject)) == Some(defects[k])
  }

  lemma DiagnosedInFront(
    diagnose: seq<Mark> -> Option<Defect>, subject: string, defects: seq<Defect>, d: Defect, k: nat)
    requires k < |defects| && DiagnosedAt(diagnose, subject, defects, k)
    ensures DiagnosedAt(diagnose, subject, defects + [d], k)
  {
    assert (defects + [d])[..k] == defects[..k];
  }

  lemma DiagnosedNext(diagnose: seq<Mark> -> Option<Defect>, subject: string, defects: seq<Defect>, d: Defect)
    requires Diagnosed(diagnose, subject, defects) && AllCured(defects, subject)
    requires diagnose(Cures(defects, subject)) == Some(d)
    ensures Diagnosed(diagnose, subject, defects + [d])
  {
    assert (defects + [d])[..|defects|] == defects;
    forall k | 0 <= k < |defects| ensures DiagnosedAt(diagnose, subject, defects + [d], k) {
      DiagnosedInFront(diagnose, subject, defects, d, k);
    }
  }

  lemma CuresNext(defects: seq<Defect>, d: Defect, subject: string)
    requires AllCured(defects, subject) && Cure(d, subject).Some?
    ensures AllCured(defects + [d], subject)
    ensures Cures(defects + [d], subject) == Cures(defects, subject) + [Cure(d, subject).value.0]
  {
    forall k | 0 <= k < |defects + [d]| ensures Cure((defects + [d])[k], subject).Some? {}
  }

  /** The demand for a blocker comes last, under a complete head. */
  ghost predicate AskedLast(header: seq<Mark>, original: Original, defects: seq<Defect>) {
    BlockedRequires in defects ==>
      && defects[|defects| - 1] == BlockedRequires && BlockedRequires !in defects[..|defects| - 1]
      && HeadDefect(Read(header + original.marks)).None?
  }

  /** The lines so far cure the diagnostics so far. */
  ghost predicate Explained(
    rules: Rules, header: seq<Mark>, original: Original, subject: string, defects: seq<Defect>)
  {
    && AllCured(defects, subject) && header == Cures(defects, subject)
    && Diagnosed(Diagnoses(rules, original, subject), subject, defects)
    && (State in NamesOf(header) ==> HeadUnrepeated(original))
    && AskedLast(header, original, defects)
  }

  lemma NamesNext(header: seq<Mark>, m: Mark)
    ensures NamesOf(header + [m]) == NamesOf(header) + [m.name]
  {
  }

  lemma SameHeadDefect(x: Reading, y: Reading)
    requires x.role == y.role && x.target == y.target && x.subject == y.subject && x.state == y.state
    ensures HeadDefect(x) == HeadDefect(y)
  {
  }

  lemma AskedIsHeaded(rules: Rules, header: seq<Mark>, original: Original, subject: string)
    requires DefectOf(rules, header, original, subject) == Some(BlockedRequires)
    ensures HeadDefect(Read(header + [Placeholder()] + original.marks)).None?
  {
    OtherValues(header, Placeholder(), original, Role);
    OtherValues(header, Placeholder(), original, Target);
    OtherValues(header, Placeholder(), original, Subject);
    OtherValues(header, Placeholder(), original, State);
    var r := Read(header + original.marks);
    SameHeadDefect(Read(header + [Placeholder()] + original.marks), r);
    BlockedIsHeaded(rules, r, original.citesProse, subject);
  }

  lemma RequiredIsMissing(vs: seq<string>, name: Name)
    ensures Required(vs, name) != Some(BlockedRequires)
  {
  }

  lemma BlockedIsHeaded(rules: Rules, r: Reading, citesProse: bool, subject: string)
    requires Parse(rules, r, citesProse, subject) == Some(BlockedRequires)
    ensures HeadDefect(r).None?
  {
    RequiredIsMissing(r.role, Role);
    RequiredIsMissing(r.target, Target);
    RequiredIsMissing(r.subject, Subject);
    RequiredIsMissing(r.state, State);
  }

  lemma PlaceholderIsCure(defects: seq<Defect>, subject: string, k: nat)
    requires AllCured(defects, subject) && k < |defects|
    ensures Cures(defects, subject)[k] == Placeholder() <==> defects[k] == BlockedRequires
  {
    CureOfMissingNames(defects[k], subject);
  }

  /** Once the blocker is asked for nothing more is cured. */
  lemma NothingAfterBlocker(
    rules: Rules, original: Original, subject: string, header: seq<Mark>, defects: seq<Defect>, d: Defect)
    requires CureHeader(header, original, subject) && Explained(rules, header, original, subject, defects)
    requires DefectOf(rules, header, original, subject) == Some(d) && Cure(d, subject).Some?
    ensures BlockedRequires !in defects
  {
    if BlockedRequires in defects {
      var r := Read(header + original.marks);
      CureOfMissingNames(d, subject);
      if d == BlockedRequires {
        PlaceholderIsCure(defects, subject, |defects| - 1);
        BlockedMeansUnread(rules, r, original.citesProse, subject);
        assert NamesOf(header)[|header| - 1] in NamesOf(header);
        HeaderHasNoBlocker(rules, header, original, subject, Only(Values(header + original.marks, State)));
      } else {
        MissingIsMissing(rules, r, original.citesProse, subject, d.name);
      }
      assert false;
    }
  }

  lemma ExplainedNext(
    rules: Rules, original: Original, subject: string, header: seq<Mark>, defects: seq<Defect>, d: Defect)
    requires CureHeader(header, original, subject) && Explained(rules, header, original, subject, defects)
    requires DefectOf(rules, header, original, subject) == Some(d) && Cure(d, subject).Some?
    ensures Explained(rules, header + [Cure(d, subject).value.0], original, subject, defects + [d])
  {
    var m, all := Cure(d, subject).value.0, defects + [d];
    NothingAfterBlocker(rules, original, subject, header, defects, d);
    CuresNext(defects, d, subject);
    DiagnosedNext(Diagnoses(rules, original, subject), subject, defects, d);
    NamesNext(header, m);
    CureOf(d, subject);
    CureOfMissingNames(d, subject);
    if d == Missing(State) { StateAsksUnrepeated(rules, header, original, subject); }
    assert all[..|defects|] == defects;
    if d == BlockedRequires { AskedIsHeaded(rules, header, original, subject); }
  }

  lemma CureOfMissingNames(d: Defect, subject: string)
    requires Cure(d, subject).Some?
    ensures d != BlockedRequires ==> d.Missing? && Cure(d, subject).value.0.name == d.name && d.name != Blocker
    ensures Cure(d, subject).value.0 == Placeholder() <==> d == BlockedRequires
  {
  }

  /** The state of the cure loop: its lines, whether all of them are derived, and what they answer. */
  ghost predicate Curing(
    rules: Rules, original: Original, subject: string, header: seq<Mark>, defects: seq<Defect>, derivable: bool)
  {
    && CureHeader(header, original, subject) && Closes(header, original)
    && (derivable <==> OnlyHead(header))
    && (HeadDerives(rules, original, subject) ==> derivable)
    && Explained(rules, header, original, subject, defects)
  }

  lemma CuringNext(
    rules: Rules, original: Original, subject: string, header: seq<Mark>, defects: seq<Defect>,
    derivable: bool, d: Defect)
    requires Curing(rules, original, subject, header, defects, derivable)
    requires DefectOf(rules, header, original, subject) == Some(d) && Cure(d, subject).Some?
    ensures var cure := Cure(d, subject).value;
            Curing(rules, original, subject, header + [cure.0], defects + [d], derivable && cure.1)
  {
    CureIsNew(rules, header, original, subject, d);
    CureCloses(rules, header, original, subject, d);
    OnlyHeadNext(header, Cure(d, subject).value.0);
    ExplainedNext(rules, original, subject, header, defects, d);
    if HeadDerives(rules, original, subject) {
      DerivableIsCured(rules, header, original, subject);
      HeadIsCured(d, subject);
    }
  }

  lemma CuringStops(rules: Rules, original: Original, subject: string, header: seq<Mark>, derivable: bool)
    requires CureHeader(header, original, subject) && (derivable <==> OnlyHead(header))
    requires HeadDerives(rules, original, subject) ==> derivable
    ensures var d := DefectOf(rules, header, original, subject);
            && (d.None? && derivable ==> HeadDerives(rules, original, subject)
                                         && Read(header + original.marks) ==
                                            Read(DerivedHead(original, subject) + original.marks))
            && (d.Some? && Cure(d.value, subject).None? ==> !HeadDerives(rules, original, subject))
  {
    var d := DefectOf(rules, header, original, subject);
    if d.None? && derivable {
      CuredIsWhole(rules, header, original, subject);
    } else if d.Some? && HeadDerives(rules, original, subject) {
      DerivableIsCured(rules, header, original, subject);
      HeadIsCured(d.value, subject);
    }
  }

  /** The header is the cures of these defects, all of them but a last one without. */
  ghost predicate CuresAll(header: seq<Mark>, defects: seq<Defect>, subject: string) {
    && |header| <= |defects| <= |header| + 1 && AllCured(defects[..|header|], subject)
    && header == Cures(defects[..|header|], subject) && (AllCured(defects, subject) <==> |defects| == |header|)
  }

  /** The defects are all that the loop meets: each is diagnosed under the cures before it, and the header cures
      all of them, or all but a last one that has no cure. */
  ghost predicate Accounted(
    rules: Rules, original: Original, subject: string, header: seq<Mark>, defects: seq<Defect>)
  {
    && Diagnosed(Diagnoses(rules, original, subject), subject, defects)
    && CuresAll(header, defects, subject)
    && (DefectOf(rules, header, original, subject).None? <==> AllCured(defects, subject))
  }

  /** A demand for a blocker is answered by the placeholder in the last line of the header, under a complete head. */
  ghost predicate Asks(header: seq<Mark>, original: Original, defects: seq<Defect>) {
    if BlockedRequires in defects then
      && header != [] && AsksAt(defects, |header| - 1) && header[|header| - 1] == Placeholder()
      && HeadDefect(Read(header + original.marks)).None?
    else Placeholder() !in header
  }

  /** What the cure loop leaves: lines that fill in the head, all derived, reading as the whole derived head, exactly
      when that head satisfies the parser, and a blocked reading exactly when the body can have one. */
  ghost predicate Cured(
    rules: Rules, original: Original, subject: string, header: seq<Mark>, defects: seq<Defect>, derivable: bool)
  {
    && CureHeader(header, original, subject) && Closes(header, original)
    && (derivable <==> HeadDerives(rules, original, subject))
    && (derivable ==> OnlyHead(header))
    && (derivable ==> Read(header + original.marks) == Read(DerivedHead(original, subject) + original.marks))
    && (!derivable && OnlyHead(header) ==> DefectOf(rules, header, original, subject).Some?)
    && (ReadsBlocked(header, original) <==> CanReadBlocked(original))
    && Accounted(rules, original, subject, header, defects) && Asks(header, original, defects)
  }

  lemma CuredAsks(header: seq<Mark>, original: Original, subject: string, defects: seq<Defect>)
    requires AllCured(defects, subject) && header == Cures(defects, subject) && AskedLast(header, original, defects)
    ensures Asks(header, original, defects)
  {
    if BlockedRequires in defects {
      var j := |defects| - 1;
      PlaceholderIsCure(defects, subject, j);
      forall i | 0 <= i < j ensures defects[i].Missing? {
        assert defects[i] in defects[..j];
        CureOfMissingNames(defects[i], subject);
      }
    } else {
      forall k | 0 <= k < |header| ensures header[k] != Placeholder() { PlaceholderIsCure(defects, subject, k); }
    }
  }

  lemma AsksNext(header: seq<Mark>, original: Original, subject: string, defects: seq<Defect>, d: Defect)
    requires |header| == |defects| && Asks(header, original, defects) && Cure(d, subject).None?
    ensures Asks(header, original, defects + [d])
  {
    var all := defects + [d];
    assert BlockedRequires in all <==> BlockedRequires in defects;
    if BlockedRequires in defects {
      forall i | 0 <= i < |header| - 1 ensures all[i].Missing? { assert defects[i].Missing?; }
    }
  }

  lemma CuredClean(
    rules: Rules, original: Original, subject: string, header: seq<Mark>, defects: seq<Defect>, derivable: bool)
    requires Curing(rules, original, subject, header, defects, derivable)
    requires DefectOf(rules, header, original, subject).None?
    ensures Cured(rules, original, subject, header, defects, derivable)
  {
    CuringStops(rules, original, subject, header, derivable);
    StoppedReadsBlocked(rules, header, original, subject);
    CuredAsks(header, original, subject, defects);
    AccountedClean(rules, original, subject, header, defects);
  }

  lemma AccountedClean(rules: Rules, original: Original, subject: string, header: seq<Mark>, defects: seq<Defect>)
    requires Explained(rules, header, original, subject, defects)
    requires DefectOf(rules, header, original, subject).None?
    ensures Accounted(rules, original, subject, header, defects)
  {
    assert defects[..|header|] == defects;
  }

  lemma AccountedUncured(
    rules: Rules, original: Original, subject: string, header: seq<Mark>, defects: seq<Defect>, d: Defect)
    requires Explained(rules, header, original, subject, defects)
    requires DefectOf(rules, header, original, subject) == Some(d) && Cure(d, subject).None?
    ensures Accounted(rules, original, subject, header, defects + [d])
  {
    DiagnosedNext(Diagnoses(rules, original, subject), subject, defects, d);
    assert (defects + [d])[..|header|] == defects && (defects + [d])[|defects|] == d;
  }

  lemma CuredUncured(
    rules: Rules, original: Original, subject: string, header: seq<Mark>, defects: seq<Defect>,
    derivable: bool, d: Defect)
    requires Curing(rules, original, subject, header, defects, derivable)
    requires DefectOf(rules, header, original, subject) == Some(d) && Cure(d, subject).None?
    ensures Cured(rules, original, subject, header, defects + [d], false)
  {
    CuringStops(rules, original, subject, header, derivable);
    StoppedReadsBlocked(rules, header, original, subject);
    CuredAsks(header, original, subject, defects);
    AsksNext(header, original, subject, defects, d);
    AccountedUncured(rules, original, subject, header, defects, d);
  }

  /** The cure loop always ends by itself, and its lines are derived exactly when the body is derivable. */
  method CureHead(rules: Rules, original: Original, subject: string)
    returns (header: seq<Mark>, defects: seq<Defect>, derivable: bool, converged: bool)
    requires Dependencies.IsSubject(subject) && IsBody(original)
    ensures converged && |defects| <= 6
    ensures Cured(rules, original, subject, header, defects, derivable)
  {
    header, defects, derivable, converged := [], [], true, false;
    for k := 0 to CURE_LIMIT
      invariant |header| == |defects| == k && !converged
      invariant Curing(rules, original, subject, header, defects, derivable)
    {
      CureHeaderIsShort(header, original, subject);
      CuresArePlain(header, original, subject);
      WrittenDiagnosis(rules, original, header, subject);
      var d := Diagnosis(rules, Written(original, header), subject);
      if d.None? {
        CuredClean(rules, original, subject, header, defects, derivable);
        converged := true;
        break;
      }
      var cure := Cure(d.value, subject);
      if cure.None? {
        CuredUncured(rules, original, subject, header, defects, derivable, d.value);
        defects, derivable, converged := defects + [d.value], false, true;
        break;
      }
      CuringNext(rules, original, subject, header, defects, derivable, d.value);
      defects := defects + [d.value];
      header, derivable := header + [cure.value.0], derivable && cure.value.1;
    }
    if !converged { CureHeaderIsShort(header, original, subject); }
  }

  lemma OnlyHeadNext(header: seq<Mark>, m: Mark)
    ensures OnlyHead(header + [m]) <==> OnlyHead(header) && m.name in HEAD
  {
    assert OnlyHead(header + [m]) ==> (header + [m])[|header|].name in HEAD;
    if OnlyHead(header + [m]) {
      forall k | 0 <= k < |header| ensures header[k].name in HEAD { assert (header + [m])[k].name in HEAD; }
    }
  }
}
