/** The lines of the intake repair beyond the cures: the derived dependencies, the stamp, and what a migration
    reads as (noodles.py:3435-3452). */
module RepairLines {
  import opened Wrappers
  import opened Intake
  import opened MarkerLines
  import opened NamedBlocker
  import opened CureLoop
  import Dependencies

  // ----- the lines after the cures

  lemma BesidesLine(header: seq<Mark>, m: Mark, original: Original)
    ensures SameBeyond(header + [m] + original.marks, header + original.marks, {m.name})
  {
    forall n | n != m.name ensures Values(header + [m] + original.marks, n) == Values(header + original.marks, n) {
      OtherValues(header, m, original, n);
    }
  }

  lemma SameButDependencies(x: Reading, y: Reading)
    requires SameHead(x, y, {DependsOn}) && SameRest(x, y, {DependsOn})
    ensures x == y.(dependsOn := x.dependsOn)
  {
  }

  lemma SameAllThrough(x: Reading, y: Reading)
    requires SameHead(x, y, {Normalized}) && SameRest(x, y, {Normalized})
    ensures x == y
  {
  }

  lemma DependenciesAdded(header: seq<Mark>, value: string, original: Original)
    requires Values(header + original.marks, DependsOn) == []
    ensures Read(header + [Mark(DependsOn, value)] + original.marks) ==
            Read(header + original.marks).(dependsOn := [value])
  {
    var m := Mark(DependsOn, value);
    BesidesLine(header, m, original);
    HeadBeyond(header + [m] + original.marks, header + original.marks, {DependsOn});
    RestBeyond(header + [m] + original.marks, header + original.marks, {DependsOn});
    SameButDependencies(Read(header + [m] + original.marks), Read(header + original.marks));
    AddedLine(header, m, original, DependsOn);
    ValuesConcat(header, original.marks, DependsOn);
  }

  /** The parser does not read the receipt. */
  lemma StampIsUnread(header: seq<Mark>, digest: string, original: Original)
    ensures Read(header + [Mark(Normalized, digest)] + original.marks) == Read(header + original.marks)
  {
    var m := Mark(Normalized, digest);
    BesidesLine(header, m, original);
    HeadBeyond(header + [m] + original.marks, header + original.marks, {Normalized});
    RestBeyond(header + [m] + original.marks, header + original.marks, {Normalized});
    SameAllThrough(Read(header + [m] + original.marks), Read(header + original.marks));
  }

  lemma DerivedFits(tokens: seq<string>, subject: string)
    requires Dependencies.Own(tokens, subject)
    ensures DependencyDefect([Dependencies.Rendered(tokens)], subject).None?
  {
    Dependencies.RenderedIsTight(tokens, subject);
    Dependencies.DerivedIsAccepted(tokens, subject);
  }

  /** An accepted body reads as the expected subject. */
  lemma CleanSubject(rules: Rules, r: Reading, citesProse: bool, subject: string)
    requires Parse(rules, r, citesProse, subject).None?
    ensures Only(r.subject) == subject
  {
  }

  /** Declaring dependencies cures no other diagnostic. */
  lemma DefectStays(rules: Rules, r: Reading, dependsOn: seq<string>, citesProse: bool, subject: string)
    requires r.dependsOn == [] && Parse(rules, r, citesProse, subject).Some?
    ensures Parse(rules, r.(dependsOn := dependsOn), citesProse, subject).Some?
  {
  }

  lemma ResolveNothing(rules: Rules, defects: seq<Defect>, header: seq<Mark>)
    requires forall k :: 0 <= k < |header| ==> header[k].name != Blocker
    ensures Resolve(rules, defects, header) == header
  {
  }

  // ----- the repair

  predicate AllMechanical(declarations: seq<Dependencies.Declaration>, subject: string) {
    forall d :: d in declarations ==> Dependencies.Mechanical(d, subject)
  }

  predicate Declares(original: Original) {
    Values(original.marks, DependsOn) != []
  }

  /** A repair is owed once, to a body with a diagnostic or with derivable dependencies it does not declare. */
  predicate Owes(rules: Rules, original: Original, subject: string) {
    && Values(original.marks, Normalized) == []
    && (DefectOf(rules, [], original, subject).Some?
       || (!Declares(original) && AllMechanical(original.declarations, subject)))
  }

  predicate Derives(rules: Rules, original: Original, subject: string) {
    HeadDerives(rules, original, subject) && (Declares(original) || AllMechanical(original.declarations, subject))
  }

  /** A migrated body passes the parser, reads as authored apart from the derived head, and declares its
      dependencies: the authored ones, or exactly what its declaration lines name. */
  ghost predicate Migrated(rules: Rules, original: Original, subject: string, r: Reading) {
    && Parse(rules, r, original.citesProse, subject).None?
    && r == Read(DerivedHead(original, subject) + original.marks).(dependsOn := r.dependsOn)
    && (if Declares(original) then r.dependsOn == Values(original.marks, DependsOn)
        else exists tokens :: DerivedFrom(original.declarations, subject, tokens, r.dependsOn))
  }

  ghost predicate DerivedFrom(
    declarations: seq<Dependencies.Declaration>, subject: string, tokens: seq<string>, dependsOn: seq<string>) {
    Dependencies.Derivable(declarations, subject, tokens) && dependsOn == [Dependencies.Rendered(tokens)]
  }

  /** Every line fills in a marker the author left out, the named blocker aside. */
  ghost predicate FillsIn(header: seq<Mark>, original: Original) {
    forall k :: 0 <= k < |header| ==> header[k].name == Blocker || Values(original.marks, header[k].name) == []
  }

  lemma CuresFillIn(header: seq<Mark>, original: Original, subject: string)
    requires CureHeader(header, original, subject)
    ensures FillsIn(header, original) && Values(header, DependsOn) == [] && Values(header, Normalized) == []
  {
    NoValues(header, DependsOn);
    NoValues(header, Normalized);
    assert forall k :: 0 <= k < |header| ==> IsCure(header[k], original, subject);
  }

  lemma MigratedHead(rules: Rules, original: Original, subject: string, header: seq<Mark>)
    requires HeadDerives(rules, original, subject) && Declares(original)
    requires Read(header + original.marks) == Read(DerivedHead(original, subject) + original.marks)
    ensures Migrated(rules, original, subject, Read(header + original.marks))
  {
    DerivedHeadValues(original, subject, DependsOn);
    ValuesConcat(DerivedHead(original, subject), original.marks, DependsOn);
  }

  lemma MigratedWithDependencies(
    rules: Rules, original: Original, subject: string, header: seq<Mark>, tokens: seq<string>)
    requires HeadDerives(rules, original, subject) && !Declares(original)
    requires Values(header + original.marks, DependsOn) == []
    requires Read(header + original.marks) == Read(DerivedHead(original, subject) + original.marks)
    requires Dependencies.Derivable(original.declarations, subject, tokens)
    ensures Migrated(rules, original, subject,
            Read(header + [Mark(DependsOn, Dependencies.Rendered(tokens))] + original.marks))
  {
    var value := Dependencies.Rendered(tokens);
    var r := Read(header + original.marks);
    DependenciesAdded(header, value, original);
    CleanSubject(rules, r, original.citesProse, subject);
    DerivedFits(tokens, subject);
    DependenciesFit(rules, r, [value], original.citesProse, subject);
    assert DerivedFrom(original.declarations, subject, tokens, [value]);
  }

  /** Before the stamp: the cure header, and the derived dependencies where the author declared none. */
  ghost predicate Extends(full: seq<Mark>, header: seq<Mark>, original: Original) {
    full == header
      || (exists v :: full == header + [Mark(DependsOn, v)] && Values(header + original.marks, DependsOn) == [])
  }

  lemma ExtendsKeepsState(full: seq<Mark>, header: seq<Mark>, original: Original)
    requires Extends(full, header, original)
    ensures Values(full + original.marks, State) == Values(header + original.marks, State)
  {
    if full != header {
      var v :| full == header + [Mark(DependsOn, v)];
      OtherValues(header, Mark(DependsOn, v), original, State);
    }
  }

  lemma ExtendsKeepsDefect(rules: Rules, full: seq<Mark>, header: seq<Mark>, original: Original, subject: string)
    requires Extends(full, header, original) && DefectOf(rules, header, original, subject).Some?
    ensures DefectOf(rules, full, original, subject).Some?
  {
    if full != header {
      var v :| full == header + [Mark(DependsOn, v)] && Values(header + original.marks, DependsOn) == [];
      DependenciesAdded(header, v, original);
      DefectStays(rules, Read(header + original.marks), [v], original.citesProse, subject);
    }
  }

  lemma StampedFillsIn(header: seq<Mark>, m: Mark, original: Original)
    requires FillsIn(header, original) && Values(original.marks, m.name) == []
    ensures FillsIn(header + [m], original)
  {
  }

  /** What declaring the dependencies leaves: one more line exactly when the author left them out and every
      declaration line is mechanical, naming exactly what those lines name. */
  ghost predicate Completed(original: Original, subject: string, header: seq<Mark>, full: seq<Mark>, declared: bool) {
    && Extends(full, header, original) && FillsIn(full, original)
    && (declared <==> Declares(original) || AllMechanical(original.declarations, subject))
    && (full == header <==> Declares(original) || !declared)
    && (!declared ==> Values(full + original.marks, DependsOn) == [])
    && (!Declares(original) && declared ==> exists tokens :: Declared(original, subject, header, full, tokens))
  }

  /** The dependencies line, and whether the body stays derivable with it. */
  method DeclareDependencies(
    original: Original, subject: string, header: seq<Mark>) returns (full: seq<Mark>, declared: bool)
    requires Dependencies.IsSubject(subject) && Dependencies.WellRead(original.declarations) && IsBody(original)
    requires CureHeader(header, original, subject)
    ensures Completed(original, subject, header, full, declared)
  {
    full, declared := header, true;
    CuresFillIn(header, original, subject);
    ValuesConcat(header, original.marks, DependsOn);
    assert Values(header + original.marks, DependsOn) == Values(original.marks, DependsOn);
    CuresArePlain(header, original, subject);
    WrittenPlain(original, header);
    if Values(Written(original, header).marks, DependsOn) == [] {
      var derived := Dependencies.DeriveDependencies(original.declarations, subject);
      if derived.None? {
        declared := false;
      } else {
        ghost var tokens :| Dependencies.Derivable(original.declarations, subject, tokens)
          && derived.value == Dependencies.Rendered(tokens);
        full := header + [Mark(DependsOn, derived.value)];
        StampedFillsIn(header, Mark(DependsOn, derived.value), original);
        assert Declared(original, subject, header, full, tokens);
      }
    }
  }

  ghost predicate Declared(
    original: Original, subject: string, header: seq<Mark>, full: seq<Mark>, tokens: seq<string>) {
    && Dependencies.Derivable(original.declarations, subject, tokens)
    && Values(header + original.marks, DependsOn) == []
    && full == header + [Mark(DependsOn, Dependencies.Rendered(tokens))]
  }

  lemma DeclaredReads(original: Original, subject: string, header: seq<Mark>, full: seq<Mark>, declared: bool)
    requires Completed(original, subject, header, full, declared)
    ensures Values(full + original.marks, DependsOn) == []
            <==> !Declares(original) && !AllMechanical(original.declarations, subject)
  {
    ValuesConcat(full, original.marks, DependsOn);
    if !Declares(original) && declared {
      var tokens :| Declared(original, subject, header, full, tokens);
      AddedLine(header, Mark(DependsOn, Dependencies.Rendered(tokens)), original, DependsOn);
    }
  }

  /** Declaring accepted dependencies does not change whether the parser accepts. */
  lemma DependenciesSwap(rules: Rules, r: Reading, value: string, citesProse: bool, subject: string)
    requires r.dependsOn == [] && DependencyDefect([value], subject).None?
    ensures Parse(rules, r.(dependsOn := [value]), citesProse, subject).None?
            <==> Parse(rules, r, citesProse, subject).None?
  {
    ParseExact(rules, r, citesProse, subject);
    ParseExact(rules, r.(dependsOn := [value]), citesProse, subject);
  }

  /** Declaring derived dependencies does not change whether the parser accepts. */
  lemma CompletedChangesNoVerdict(
    rules: Rules, original: Original, subject: string, header: seq<Mark>, full: seq<Mark>, declared: bool)
    requires Completed(original, subject, header, full, declared)
    ensures DefectOf(rules, full, original, subject).None? <==> DefectOf(rules, header, original, subject).None?
  {
    if full != header {
      var tokens :| Declared(original, subject, header, full, tokens);
      DependenciesAdded(header, Dependencies.Rendered(tokens), original);
      DerivedFits(tokens, subject);
      DependenciesSwap(rules, Read(header + original.marks), Dependencies.Rendered(tokens),
        original.citesProse, subject);
    }
  }

  lemma CompletedIsPlain(original: Original, subject: string, header: seq<Mark>, full: seq<Mark>, declared: bool)
    requires Dependencies.IsSubject(subject) && CureHeader(header, original, subject)
    requires Completed(original, subject, header, full, declared)
    ensures AllPlain(full)
  {
    CuresArePlain(header, original, subject);
    if full != header {
      var tokens :| Declared(original, subject, header, full, tokens);
      RenderedIsClean(tokens, subject);
    }
  }
}
