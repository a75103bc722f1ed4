/** The blocked repair as it is read back: its lines, the named blocker, and what the last diagnostic quotes
    (noodles.py:3443-3452). */
module BlockedRepair {
  import opened Wrappers
  import opened Text
  import opened Intake
  import opened MarkerLines
  import opened NamedBlocker
  import opened CureLoop
  import opened RepairLines
  import Ordering

  /** The blocked repair: the placeholder names the defects, the receipt is stamped. */
  function Blocked(rules: Rules, defects: seq<Defect>, full: seq<Mark>, digest: string): seq<Mark> {
    Resolve(rules, defects, full) + [Mark(Normalized, digest)]
  }

  // ----- its lines

  /** The header lines about the placeholder: it is the last cure, and only the dependencies may follow. */
  ghost predicate Splits(full: seq<Mark>, front: seq<Mark>, tail: seq<Mark>) {
    && full == front + [Placeholder()] + tail && AllPlain(front) && AllPlain(tail)
    && (forall k :: 0 <= k < |front| ==> front[k].name != Blocker)
    && forall k :: 0 <= k < |tail| ==> tail[k].name == DependsOn
  }

  lemma ResolveConcat(rules: Rules, defects: seq<Defect>, a: seq<Mark>, b: seq<Mark>)
    ensures Resolve(rules, defects, a + b) == Resolve(rules, defects, a) + Resolve(rules, defects, b)
  {
  }

  lemma ResolvePlaceholder(rules: Rules, defects: seq<Defect>)
    ensures Resolve(rules, defects, [Placeholder()]) == [Mark(Blocker, Named(Reason(rules, defects)))]
  {
  }

  lemma RegroupMarks(a: seq<Mark>, b: seq<Mark>, c: seq<Mark>, d: seq<Mark>)
    ensures a + b + c + d == a + (b + (c + d))
  {
  }

  lemma ResolveSplit(
    rules: Rules, defects: seq<Defect>, full: seq<Mark>, front: seq<Mark>, tail: seq<Mark>, digest: string)
    requires Splits(full, front, tail)
    ensures Blocked(rules, defects, full, digest)
         == front + ([Mark(Blocker, Named(Reason(rules, defects)))] + (tail + [Mark(Normalized, digest)]))
  {
    var named := [Mark(Blocker, Named(Reason(rules, defects)))];
    ResolveConcat(rules, defects, front + [Placeholder()], tail);
    ResolveConcat(rules, defects, front, [Placeholder()]);
    ResolvePlaceholder(rules, defects);
    ResolveNothing(rules, defects, front);
    ResolveNothing(rules, defects, tail);
    RegroupMarks(front, named, tail, [Mark(Normalized, digest)]);
  }

  /** The blocker's own value, as its line is read. */
  function Heard(rules: Rules, defects: seq<Defect>, j: nat, n: Name): seq<string>
    requires AsksAt(defects, j)
  {
    if n == Blocker then [Strip(Seen(rules, defects, j))] else []
  }

  /** A blocked repair is read as its lines, one blocker in the placeholder's place, and what its last diagnostic
      quotes. */
  lemma BlockedScan(rules: Rules, defects: seq<Defect>, j: nat, full: seq<Mark>, front: seq<Mark>, tail: seq<Mark>,
                    digest: string, n: Name)
    requires Splits(full, front, tail) && IsHexDigest(digest)
    requires AsksAt(defects, j) && (|defects| == j + 2 ==> defects[j + 1] != BlockedRequires)
    ensures Scan(Lines(Blocked(rules, defects, full, digest)), n)
         == Values(front, n) + (Heard(rules, defects, j, n) + Quoted(rules, defects, n)
                                + Values(tail + [Mark(Normalized, digest)], n))
  {
    var named, rest := Mark(Blocker, Named(Reason(rules, defects))), tail + [Mark(Normalized, digest)];
    ResolveSplit(rules, defects, full, front, tail, digest);
    DigestIsPlain(digest);
    ScanLines(front, [named] + rest, n);
    ScanLines([named], rest, n);
    LinesAreRead(front, n);
    LinesAreRead(rest, n);
    LineAlone(named);
    NamedLineIsRead(rules, defects, j, n);
  }

  /** Lines the repair derives or stamps are read back as written. */
  lemma StampedIsRead(original: Original, full: seq<Mark>, digest: string, n: Name)
    requires IsBody(original) && AllPlain(full) && IsHexDigest(digest)
    ensures Values(Written(original, full + [Mark(Normalized, digest)]).marks, n)
         == Values(full + [Mark(Normalized, digest)] + original.marks, n)
  {
    DigestIsPlain(digest);
    WrittenPlain(original, full + [Mark(Normalized, digest)]);
  }

  lemma TailValues(tail: seq<Mark>, digest: string, n: Name)
    requires forall k :: 0 <= k < |tail| ==> tail[k].name == DependsOn
    ensures n != Normalized ==> Values(tail + [Mark(Normalized, digest)], n) == Values(tail, n)
    ensures n != DependsOn ==> Values(tail, n) == []
  {
    ValuesConcat(tail, [Mark(Normalized, digest)], n);
    NoValues(tail, n);
    assert [Mark(Normalized, digest)][1..] == [];
  }

  /** What the placeholder's lines and the original would be read as, were nothing quoted. */
  function Unquoted(rules: Rules, original: Original, defects: seq<Defect>, j: nat, front: seq<Mark>, tail: seq<Mark>)
    : seq<Mark>
    requires AsksAt(defects, j)
  {
    front + ([Mark(Blocker, Strip(Seen(rules, defects, j)))] + (tail + original.marks))
  }

  lemma UnquotedValues(rules: Rules, original: Original, defects: seq<Defect>, j: nat, front: seq<Mark>,
                       tail: seq<Mark>, n: Name)
    requires AsksAt(defects, j)
    ensures Values(Unquoted(rules, original, defects, j, front, tail), n)
         == Values(front, n) + (Heard(rules, defects, j, n) + (Values(tail, n) + Values(original.marks, n)))
  {
    var m := Mark(Blocker, Strip(Seen(rules, defects, j)));
    ValuesConcat(front, [m] + (tail + original.marks), n);
    ValuesConcat([m], tail + original.marks, n);
    ValuesConcat(tail, original.marks, n);
    assert [m][1..] == [];
  }

  // ----- against the same lines with nothing quoted

  function Front(header: seq<Mark>): seq<Mark>
    requires header != []
  {
    header[..|header| - 1]
  }

  lemma SplitsAt(original: Original, header: seq<Mark>, full: seq<Mark>)
    requires header != [] && header[|header| - 1] == Placeholder() && Ordering.Distinct(NamesOf(header))
    requires Extends(full, header, original) && AllPlain(full)
    ensures |header| <= |full| && Splits(full, Front(header), full[|header|..])
  {
    var front := Front(header);
    assert header == front + [Placeholder()];
    PlainParts(full, |header|);
    NoOtherBlocker(header);
    if full == header {
      assert full[|header|..] == [];
    } else {
      var v :| full == header + [Mark(DependsOn, v)];
      assert full[|header|..] == [Mark(DependsOn, v)] && full[..|header|] == header;
    }
  }

  lemma PlainParts(full: seq<Mark>, k: nat)
    requires AllPlain(full) && k <= |full|
    ensures AllPlain(full[..k]) && AllPlain(full[k..]) && (k > 0 ==> AllPlain(full[..k][..k - 1]))
  {
    forall i | 0 <= i < |full[k..]| ensures Plain(full[k..][i]) { assert Plain(full[k + i]); }
  }

  lemma NoOtherBlocker(header: seq<Mark>)
    requires Ordering.Distinct(NamesOf(header)) && header != [] && header[|header| - 1].name == Blocker
    ensures forall k :: 0 <= k < |Front(header)| ==> Front(header)[k].name != Blocker
  {
    forall k | 0 <= k < |Front(header)| ensures Front(header)[k].name != Blocker {
      assert NamesOf(header)[k] != NamesOf(header)[|header| - 1];
    }
  }

  /** The values of one name are those of the lines before the placeholder, the blocker heard there, those of the
      lines after it, and the authored ones; what is quoted comes before the lines after. */
  ghost predicate AreParts(rules: Rules, original: Original, defects: seq<Defect>, j: nat, full: seq<Mark>,
                           y: seq<Mark>, x: seq<Mark>, n: Name, f: seq<string>, t: seq<string>)
    requires AsksAt(defects, j)
  {
    var h, o := Heard(rules, defects, j, n), Values(original.marks, n);
    && (n != DependsOn ==> t == []) && (n == Blocker ==> f == [])
    && Values(full + original.marks, n) == f + ((if n == Blocker then [Placeholder().value] else []) + (t + o))
    && Values(y, n) == f + (h + (t + o))
    && (n != Normalized ==> Values(x, n) == f + (h + Quoted(rules, defects, n) + t) + o)
  }

  lemma AfterValues(rules: Rules, original: Original, defects: seq<Defect>, j: nat, full: seq<Mark>,
                    front: seq<Mark>, tail: seq<Mark>, digest: string, n: Name)
    requires IsBody(original) && IsHexDigest(digest) && Splits(full, front, tail)
    requires AsksAt(defects, j) && (|defects| == j + 2 ==> defects[j + 1] != BlockedRequires)
    ensures AreParts(rules, original, defects, j, full, Unquoted(rules, original, defects, j, front, tail),
                     Written(original, Blocked(rules, defects, full, digest)).marks, n,
                     Values(front, n), Values(tail, n))
  {
    BlockedScan(rules, defects, j, full, front, tail, digest, n);
    TailValues(tail, digest, n);
    WrittenReads(original, Blocked(rules, defects, full, digest), n);
    UnquotedValues(rules, original, defects, j, front, tail, n);
    PlaceholderValues(original, full, front, tail, n);
    NoValues(front, n);
  }

  lemma PlaceholderValues(original: Original, full: seq<Mark>, front: seq<Mark>, tail: seq<Mark>, n: Name)
    requires full == front + [Placeholder()] + tail
    ensures Values(full + original.marks, n) == Values(front, n)
         + ((if n == Blocker then [Placeholder().value] else []) + (Values(tail, n) + Values(original.marks, n)))
  {
    var m := Placeholder();
    assert full + original.marks == front + ([m] + (tail + original.marks));
    ValuesConcat(front, [m] + (tail + original.marks), n);
    ValuesConcat([m], tail + original.marks, n);
    ValuesConcat(tail, original.marks, n);
    assert [m][1..] == [];
  }

  lemma AllCuredNext(defects: seq<Defect>, subject: string)
    requires defects != [] && AllCured(defects[..|defects| - 1], subject)
    requires Cure(defects[|defects| - 1], subject).Some?
    ensures AllCured(defects, subject)
  {
    forall k | 0 <= k < |defects| ensures Cure(defects[k], subject).Some? {
      if k < |defects| - 1 { assert defects[..|defects| - 1][k] == defects[k]; }
    }
  }

  lemma PrefixCured(defects: seq<Defect>, m: nat, subject: string)
    requires |defects| == m + 1 && AllCured(defects[..m], subject) && !AllCured(defects, subject)
    ensures Cure(defects[m], subject).None?
  {
    if Cure(defects[m], subject).Some? { AllCuredNext(defects, subject); }
  }

  /** The defect after the demand, if any, has no cure. */
  lemma UncuredIsLast(rules: Rules, original: Original, subject: string, header: seq<Mark>, defects: seq<Defect>)
    requires header != [] && |defects| == |header| + 1 && Accounted(rules, original, subject, header, defects)
    ensures defects[|header|] != BlockedRequires
  {
    PrefixCured(defects, |header|, subject);
    CureOf(BlockedRequires, subject);
  }

  /** The same values, or some of at most one left out. */
  predicate Thins(a: seq<string>, full: seq<string>) {
    |full| <= 1 ==> a == full || a == []
  }

  lemma LeftOut(f: seq<string>, h: seq<string>, q: seq<string>, t: seq<string>, o: seq<string>)
    ensures Thins(f + (h + (t + o)), f + (h + q + t) + o)
    ensures q == [] ==> f + (h + (t + o)) == f + (h + q + t) + o
  {
    if q == [] {
      assert h + q == h;
    }
  }

  // ----- what the parser says of it

  lemma SameButBlocker(x: Reading, y: Reading)
    requires SameHead(x, y, {Blocker}) && SameRest(x, y, {Blocker})
    ensures x == y.(blocker := x.blocker)
  {
  }

  lemma ReadButBlocker(a: seq<Mark>, b: seq<Mark>)
    requires SameBeyond(a, b, {Blocker})
    ensures Read(a) == Read(b).(blocker := Values(a, Blocker))
  {
    HeadBeyond(a, b, {Blocker});
    RestBeyond(a, b, {Blocker});
    SameButBlocker(Read(a), Read(b));
  }

  /** One fitting blocker for another does not change whether the parser accepts. */
  lemma BlockerSwap(rules: Rules, r: Reading, blocker: seq<string>, citesProse: bool, subject: string)
    requires |blocker| == |r.blocker|
    requires |blocker| == 1 ==>
               (BlockerFits(rules, Only(blocker), Only(r.state)) <==>
                BlockerFits(rules, Only(r.blocker), Only(r.state)))
    ensures Parse(rules, r.(blocker := blocker), citesProse, subject).None? <==>
            Parse(rules, r, citesProse, subject).None?
  {
    ParseExact(rules, r, citesProse, subject);
    ParseExact(rules, r.(blocker := blocker), citesProse, subject);
  }

  /** The reading with nothing quoted, whose parts are those of one name after another. */
  ghost predicate IsUnquoted(rules: Rules, original: Original, defects: seq<Defect>, j: nat, full: seq<Mark>,
                             y: seq<Mark>)
    requires AsksAt(defects, j)
  {
    && SameBeyond(y, full + original.marks, {Blocker})
    && Values(full + original.marks, Blocker) == [Placeholder().value] + Values(original.marks, Blocker)
    && Values(y, Blocker) == [Strip(Seen(rules, defects, j))] + Values(original.marks, Blocker)
  }

  /** With nothing quoted the named blocker passes where the placeholder does. */
  lemma NamingChangesNoVerdict(rules: Rules, original: Original, subject: string, defects: seq<Defect>, j: nat,
                               full: seq<Mark>, y: seq<Mark>)
    requires AsksAt(defects, j) && IsUnquoted(rules, original, defects, j, full, y)
    requires ReadsBlocked(full, original)
    ensures Parse(rules, Read(y), original.citesProse, subject).None? <==>
            DefectOf(rules, full, original, subject).None?
  {
    var r := Read(full + original.marks);
    ReadButBlocker(y, full + original.marks);
    if Values(original.marks, Blocker) == [] {
      NamedBlockerFits(rules, defects, j);
      PlaceholderFits(rules);
      StripTwice(Seen(rules, defects, j));
    }
    BlockerSwap(rules, r, Values(y, Blocker), original.citesProse, subject);
  }

  predicate ThinHead(y: Reading, x: Reading) {
    && Thins(y.role, x.role) && Thins(y.target, x.target) && Thins(y.subject, x.subject) && Thins(y.state, x.state)
    && Thins(y.feature, x.feature) && Thins(y.component, x.component) && Thins(y.dependsOn, x.dependsOn)
  }

  predicate ThinRest(y: Reading, x: Reading) {
    && Thins(y.writeBoundary, x.writeBoundary) && Thins(y.executor, x.executor) && Thins(y.runtime, x.runtime)
    && Thins(y.evidence, x.evidence) && Thins(y.blocker, x.blocker) && Thins(y.relation, x.relation)
    && Thins(y.observer, x.observer) && Thins(y.capabilityProbe, x.capabilityProbe)
  }

  /** Markers added to a complete head and a blocker cure no diagnostic. */
  lemma ThinnerParses(rules: Rules, y: Reading, x: Reading, citesProse: bool, subject: string)
    requires ThinHead(y, x) && ThinRest(y, x) && HeadDefect(y).None? && y.blocker != []
    requires Parse(rules, x, citesProse, subject).None?
    ensures Parse(rules, y, citesProse, subject).None?
  {
    ParseExact(rules, x, citesProse, subject);
    ParseExact(rules, y, citesProse, subject);
    ThinnerFits(rules, y, x, subject);
  }

  lemma ThinnerFits(rules: Rules, y: Reading, x: Reading, subject: string)
    requires ThinHead(y, x) && ThinRest(y, x) && HeadDefect(y).None? && y.blocker != []
    requires HeadFits(x, subject) && MarkersFit(rules, x, subject)
    ensures HeadFits(y, subject) && MarkersFit(rules, y, subject) && y.blocker == x.blocker && y.state == x.state
  {
  }

  ghost predicate ThinBeyond(y: seq<Mark>, x: seq<Mark>) {
    forall n {:trigger Values(y, n)} {:trigger Values(x, n)} :: n != Normalized ==> Thins(Values(y, n), Values(x, n))
  }

  lemma ThinReading(y: seq<Mark>, x: seq<Mark>)
    requires ThinBeyond(y, x)
    ensures ThinHead(Read(y), Read(x)) && ThinRest(Read(y), Read(x))
  {
    ThinReadingHead(y, x);
    ThinReadingRest(y, x);
  }

  lemma ThinReadingHead(y: seq<Mark>, x: seq<Mark>)
    requires ThinBeyond(y, x)
    ensures ThinHead(Read(y), Read(x))
  {
  }

  lemma ThinReadingRest(y: seq<Mark>, x: seq<Mark>)
    requires ThinBeyond(y, x)
    ensures ThinRest(Read(y), Read(x))
  {
  }

  // ----- what a reader finds in it

  ghost predicate HasPart(rules: Rules, original: Original, defects: seq<Defect>, j: nat, full: seq<Mark>,
                          y: seq<Mark>, x: seq<Mark>, n: Name)
    requires AsksAt(defects, j)
  {
    exists f, t :: AreParts(rules, original, defects, j, full, y, x, n, f, t)
  }

  /** The parts of every name: x is what the repair is read as, y the same with nothing quoted. */
  ghost predicate HasParts(rules: Rules, original: Original, defects: seq<Defect>, j: nat, full: seq<Mark>,
                           y: seq<Mark>, x: seq<Mark>)
    requires AsksAt(defects, j)
  {
    forall n :: HasPart(rules, original, defects, j, full, y, x, n)
  }

  /** The parts of one name, as equations. */
  lemma Parts(rules: Rules, original: Original, defects: seq<Defect>, j: nat, full: seq<Mark>,
              y: seq<Mark>, x: seq<Mark>, n: Name)
    returns (f: seq<string>, h: seq<string>, q: seq<string>, t: seq<string>, o: seq<string>)
    requires AsksAt(defects, j) && HasParts(rules, original, defects, j, full, y, x)
    ensures o == Values(original.marks, n) && q == Quoted(rules, defects, n)
    ensures n != Blocker ==> h == [] && Values(full + original.marks, n) == f + ([] + (t + o))
    ensures n == Blocker ==> f == [] && h == [Strip(Seen(rules, defects, j))]
    ensures n == Blocker ==> Values(full + original.marks, n) == f + ([Placeholder().value] + (t + o))
    ensures n != DependsOn ==> t == []
    ensures Values(y, n) == f + (h + (t + o))
    ensures n != Normalized ==> Values(x, n) == f + (h + q + t) + o
  {
    assert HasPart(rules, original, defects, j, full, y, x, n);
    f, t :| AreParts(rules, original, defects, j, full, y, x, n, f, t);
    h, q, o := Heard(rules, defects, j, n), Quoted(rules, defects, n), Values(original.marks, n);
  }

  lemma PartsThin(rules: Rules, original: Original, defects: seq<Defect>, j: nat, full: seq<Mark>,
                  y: seq<Mark>, x: seq<Mark>)
    requires AsksAt(defects, j) && HasParts(rules, original, defects, j, full, y, x)
    ensures ThinBeyond(y, x)
    ensures (forall n :: Quoted(rules, defects, n) == []) ==> SameBeyond(y, x, {Normalized})
  {
    forall n | n != Normalized
      ensures Thins(Values(y, n), Values(x, n))
      ensures Quoted(rules, defects, n) == [] ==> Values(y, n) == Values(x, n)
    {
      var f, h, q, t, o := Parts(rules, original, defects, j, full, y, x, n);
      LeftOut(f, h, q, t, o);
    }
  }

  lemma PartsUnquoted(rules: Rules, original: Original, defects: seq<Defect>, j: nat, full: seq<Mark>,
                      y: seq<Mark>, x: seq<Mark>)
    requires AsksAt(defects, j) && HasParts(rules, original, defects, j, full, y, x)
    ensures IsUnquoted(rules, original, defects, j, full, y)
  {
    forall n | n != Blocker ensures Values(y, n) == Values(full + original.marks, n) {
      var f, h, q, t, o := Parts(rules, original, defects, j, full, y, x, n);
    }
    var f, h, q, t, o := Parts(rules, original, defects, j, full, y, x, Blocker);
    NoneAround([Placeholder().value], o);
    NoneAround(h, o);
  }

  lemma NoneAround(v: seq<string>, o: seq<string>)
    ensures [] + (v + ([] + o)) == v + o
  {
  }

  lemma NoneBetween(f: seq<string>, q: seq<string>, o: seq<string>)
    ensures f + ([] + q + []) + o == f + q + o && f + ([] + ([] + o)) == f + o
  {
  }

  lemma NothingElse(f: seq<string>, h: seq<string>, q: seq<string>, t: seq<string>, o: seq<string>)
    requires h == [] && [] + o == f + ([] + (t + o))
    ensures f + (h + q + t) + o == q + o
  {
    assert |f| + |t| == 0;
    assert f == [] && t == [];
  }

  /** The repair is accepted exactly when every defect has a cure: what is quoted cures nothing. */
  lemma BlockedVerdict(rules: Rules, original: Original, subject: string, defects: seq<Defect>, j: nat,
                       full: seq<Mark>, y: seq<Mark>, x: seq<Mark>)
    requires AsksAt(defects, j) && HasParts(rules, original, defects, j, full, y, x)
    requires ReadsBlocked(full, original) && HeadDefect(Read(full + original.marks)).None?
    requires DefectOf(rules, full, original, subject).None? <==> AllCured(defects, subject)
    requires AllCured(defects, subject) ==> forall n :: Quoted(rules, defects, n) == []
    ensures Parse(rules, Read(x), original.citesProse, subject).None? <==> AllCured(defects, subject)
  {
    PartsThin(rules, original, defects, j, full, y, x);
    PartsUnquoted(rules, original, defects, j, full, y, x);
    NamingChangesNoVerdict(rules, original, subject, defects, j, full, y);
    if Parse(rules, Read(x), original.citesProse, subject).None? {
      ReadButBlocker(y, full + original.marks);
      SameHeadDefect(Read(y), Read(full + original.marks));
      ThinReading(y, x);
      ThinnerParses(rules, Read(y), Read(x), original.citesProse, subject);
    }
    if AllCured(defects, subject) {
      ReadButStamp(y, x);
    }
  }

  lemma ReadButStamp(y: seq<Mark>, x: seq<Mark>)
    requires SameBeyond(y, x, {Normalized})
    ensures Read(y) == Read(x)
  {
    HeadBeyond(y, x, {Normalized});
    RestBeyond(y, x, {Normalized});
    SameAllThrough(Read(y), Read(x));
  }

  /** A quoted state comes before an authored one, and after a default. */
  lemma StateRead(rules: Rules, original: Original, defects: seq<Defect>, j: nat, full: seq<Mark>,
                  y: seq<Mark>, x: seq<Mark>)
    requires AsksAt(defects, j) && HasParts(rules, original, defects, j, full, y, x) && ReadsBlocked(full, original)
    requires Values(full, State) == [] <==> Values(original.marks, State) != []
    ensures Only(Values(x, State)) == "blocked" <==> !Spoils(rules, original, defects)
    ensures Quoted(rules, defects, State) != [] ==> |Values(x, State)| > 1
  {
    var f, h, q, t, o := Parts(rules, original, defects, j, full, y, x, State);
    ValuesConcat(full, original.marks, State);
    NoneBetween(f, q, o);
    SameFront(Values(full, State), f, o);
    FirstOf(f, q, o);
  }

  lemma FirstOf(f: seq<string>, q: seq<string>, o: seq<string>)
    requires f == [] <==> o != []
    ensures Only(f + q + o) == (if f != [] then Only(f) else if q != [] then Only(q) else Only(o))
    ensures Only(f + o) == (if f != [] then Only(f) else Only(o))
    ensures q != [] ==> |f + q + o| > 1
  {
    if f == [] { assert f + q + o == q + o && f + o == o; }
  }

  lemma SameFront(a: seq<string>, b: seq<string>, o: seq<string>)
    requires a + o == b + o
    ensures a == b
  {
    assert |a| == |b| && a == (a + o)[..|a|] && b == (b + o)[..|b|];
  }

  /** The last diagnostic quotes a state that is not blocked, before an authored one. */
  predicate Spoils(rules: Rules, original: Original, defects: seq<Defect>) {
    && Values(original.marks, State) != [] && Quoted(rules, defects, State) != []
    && Only(Quoted(rules, defects, State)) != "blocked"
  }

  lemma DependenciesRead(rules: Rules, original: Original, defects: seq<Defect>, j: nat, full: seq<Mark>,
                         y: seq<Mark>, x: seq<Mark>)
    requires AsksAt(defects, j) && HasParts(rules, original, defects, j, full, y, x)
    ensures Values(x, DependsOn) == [] <==>
            Values(full + original.marks, DependsOn) == [] && Quoted(rules, defects, DependsOn) == []
  {
    var f, h, q, t, o := Parts(rules, original, defects, j, full, y, x, DependsOn);
    AllNone(f, h, q, t, o);
  }

  lemma AllNone(f: seq<string>, h: seq<string>, q: seq<string>, t: seq<string>, o: seq<string>)
    requires h == []
    ensures f + (h + q + t) + o == [] <==> f + ([] + (t + o)) == [] && q == []
  {
    assert |f + (h + q + t) + o| == |f + ([] + (t + o))| + |q|;
  }

  /** An authored marker, the blocker aside, is repeated by what is quoted and by nothing else. */
  lemma AuthoredRead(rules: Rules, original: Original, defects: seq<Defect>, j: nat, full: seq<Mark>,
                     y: seq<Mark>, x: seq<Mark>, n: Name)
    requires AsksAt(defects, j) && HasParts(rules, original, defects, j, full, y, x)
    requires n != Blocker && n != Normalized && Values(full, n) == []
    ensures Values(x, n) == Quoted(rules, defects, n) + Values(original.marks, n)
  {
    var f, h, q, t, o := Parts(rules, original, defects, j, full, y, x, n);
    ValuesConcat(full, original.marks, n);
    NothingElse(f, h, q, t, o);
  }
}
