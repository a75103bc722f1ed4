/** Typed dependencies: derived from declaration lines, parsed from the marker (issue_contract.py:500-544). */
module Dependencies {
  import opened Wrappers
  import opened Text
  import opened Ordering

  const NO_DEPENDENCIES := "none"

  predicate IsNameChar(c: char) {
    'A' <= c <= 'Z' || 'a' <= c <= 'z' || '0' <= c <= '9' || c == '_' || c == '.' || c == '-'
  }

  predicate IsName(s: string) {
    s != [] && forall k :: 0 <= k < |s| ==> IsNameChar(s[k])
  }

  predicate IsRepo(s: string) {
    var parts := Split(s, '/');
    |parts| == 2 && IsName(parts[0]) && IsName(parts[1])
  }

  /** SUBJECT_RE: owner/repo#N. */
  predicate IsSubject(s: string) {
    var parts := Split(s, '#');
    |parts| == 2 && IsRepo(parts[0]) && IsNumberText(parts[1])
  }

  function RepoOf(subject: string): string {
    Split(subject, '#')[0]
  }

  // ----- parsing the marker

  /** The tokens accepted one by one: exact subjects, none of them the issue's own, none twice. */
  function Accepted(tokens: seq<string>, subject: string): Option<seq<string>> {
    if tokens == [] then Some([])
    else
      var before, token := Accepted(tokens[..|tokens| - 1], subject), Strip(tokens[|tokens| - 1]);
      if before.None? || !IsSubject(token) || token == subject || token in before.value then None
      else Some(before.value + [token])
  }

  function Parsed(raw: Option<string>, subject: string): Option<seq<string>> {
    var value := Strip(if raw.Some? then raw.value else "");
    if value == NO_DEPENDENCIES then Some([])
    else if value == [] then None
    else Accepted(Split(value, ','), subject)
  }

  lemma {:induction false} AcceptedStops(tokens: seq<string>, k: nat, subject: string)
    requires k <= |tokens| && Accepted(tokens[..k], subject).None?
    ensures Accepted(tokens, subject).None?
    decreases |tokens| - k
  {
    if k < |tokens| {
      assert tokens[..k + 1][..k] == tokens[..k];
      AcceptedStops(tokens, k + 1, subject);
    } else {
      assert tokens[..k] == tokens;
    }
  }

  /** One more token: accepted behind those before it, or an error. */
  lemma AcceptedNext(tokens: seq<string>, k: nat, before: seq<string>, subject: string)
    requires k < |tokens| && Accepted(tokens[..k], subject) == Some(before)
    ensures var token := Strip(tokens[k]);
            Accepted(tokens[..k + 1], subject) ==
            if !IsSubject(token) || token == subject || token in before then None else Some(before + [token])
  {
    assert tokens[..k + 1][..k] == tokens[..k];
  }

  /** parse_dependencies; None is its error. */
  method ParseDependencies(raw: Option<string>, subject: string) returns (r: Option<seq<string>>)
    ensures r == Parsed(raw, subject)
  {
    var value := Strip(if raw.Some? then raw.value else "");
    if value == NO_DEPENDENCIES {
      return Some([]);
    }
    if value == [] {
      return None;
    }
    var dependencies: seq<string> := [];
    var tokens := Split(value, ',');
    for k := 0 to |tokens|
      invariant Accepted(tokens[..k], subject) == Some(dependencies)
    {
      AcceptedNext(tokens, k, dependencies, subject);
      var token := Strip(tokens[k]);
      if !IsSubject(token) || token == subject || token in dependencies {
        AcceptedStops(tokens, k + 1, subject);
        return None;
      }
      dependencies := dependencies + [token];
    }
    assert tokens[..|tokens|] == tokens;
    r := Some(dependencies);
  }

  function Stripped(tokens: seq<string>): (r: seq<string>)
    ensures |r| == |tokens|
  {
    seq(|tokens|, k requires 0 <= k < |tokens| => Strip(tokens[k]))
  }

  /** Listed tokens are accepted exactly when they are distinct exact subjects other than the issue's own,
      and then they are what is accepted. */
  lemma {:induction false} AcceptedExact(tokens: seq<string>, subject: string)
    ensures Accepted(tokens, subject).Some? <==> Own(Stripped(tokens), subject)
    ensures Accepted(tokens, subject).Some? ==> Accepted(tokens, subject).value == Stripped(tokens)
  {
    if tokens == [] {
    } else {
      var n := |tokens| - 1;
      AcceptedExact(tokens[..n], subject);
      assert Stripped(tokens) == Stripped(tokens[..n]) + [Strip(tokens[n])];
      OwnSnoc(Stripped(tokens[..n]), Strip(tokens[n]), subject);
    }
  }

  lemma OwnSnoc(tokens: seq<string>, token: string, subject: string)
    ensures Own(tokens + [token], subject) <==>
            Own(tokens, subject) && IsSubject(token) && token != subject && token !in tokens
  {
    var all := tokens + [token];
    assert all[|tokens|] == token && forall k :: 0 <= k < |tokens| ==> all[k] == tokens[k];
    if Own(all, subject) {
      forall k | 0 <= k < |tokens| ensures tokens[k] != token { assert all[k] != all[|tokens|]; }
      forall i, j | 0 <= i < j < |tokens| ensures tokens[i] != tokens[j] { assert all[i] != all[j]; }
      forall k | 0 <= k < |tokens| ensures IsSubject(tokens[k]) && tokens[k] != subject { assert IsSubject(all[k]); }
    }
  }

  // ----- deriving the marker

  /** One issue reference of a declaration line: an optional repository and a number. */
  datatype Reference = Reference(repo: Option<string>, number: string)

  predicate IsReference(r: Reference) {
    (r.repo.Some? ==> IsRepo(r.repo.value)) && IsNumberText(r.number)
  }

  /** A declaration line, read: a word for no dependency, or its references in order. */
  datatype Declaration = NoDependency | Names(references: seq<Reference>)

  ghost predicate WellRead(declarations: seq<Declaration>) {
    forall d, r :: d in declarations && d.Names? && r in d.references ==> IsReference(r)
  }

  function Token(r: Reference, repo: string): string {
    (if r.repo.Some? then r.repo.value else repo) + "#" + r.number
  }

  predicate Foreign(r: Reference, repo: string) {
    r.repo.Some? && r.repo.value != repo
  }

  /** The tokens of one declaration, behind those before it; not ok when one is foreign or the issue's own. */
  method AddReferences(references: seq<Reference>, subject: string, derived: seq<string>, ghost before: seq<string>)
    returns (ok: bool, more: seq<string>)
    requires derived == Firsts(before)
    ensures ok <==> forall k :: 0 <= k < |references| ==> IsOwn(references[k], subject)
    ensures ok ==> more == Firsts(before + Tokens(references, RepoOf(subject)))
  {
    var repo := RepoOf(subject);
    ghost var tokens := Tokens(references, repo);
    FirstsWhole(before, tokens);
    more := derived;
    for j := 0 to |references|
      invariant more == Firsts(before + tokens[..j])
      invariant forall k :: 0 <= k < j ==> IsOwn(references[k], subject)
    {
      var token := Token(references[j], repo);
      if !IsOwn(references[j], subject) {
        return false, more;
      }
      FirstsBehind(before, tokens, j);
      more := if token in more then more else more + [token];
    }
    ok := true;
  }

  /** derive_dependencies: the derived tokens, or None when a declaration is not mechanical. */
  method DeriveDependencies(declarations: seq<Declaration>, subject: string) returns (r: Option<string>)
    requires IsSubject(subject) && WellRead(declarations)
    ensures r.Some? ==> exists tokens :: Derivable(declarations, subject, tokens) && r.value == Rendered(tokens)
    ensures r.None? <==> exists d :: d in declarations && !Mechanical(d, subject)
  {
    var repo := RepoOf(subject);
    var derived: seq<string> := [];
    for i := 0 to |declarations|
      invariant derived == Firsts(Mentions(declarations[..i], repo))
      invariant forall k :: 0 <= k < i ==> Mechanical(declarations[k], subject)
    {
      var d := declarations[i];
      assert declarations[..i + 1] == declarations[..i] + [d] && d in declarations;
      MentionsNext(declarations[..i], d, repo);
      if d.Names? {
        if d.references == [] {
          assert !Mechanical(d, subject);
          return None;
        }
        var ok, more := AddReferences(d.references, subject, derived, Mentions(declarations[..i], repo));
        if !ok {
          assert !Mechanical(d, subject);
          return None;
        }
        derived := more;
      } else {
        assert Mentions(declarations[..i], repo) + [] == Mentions(declarations[..i], repo);
      }
    }
    assert declarations[..|declarations|] == declarations;
    MechanicalDerives(declarations, subject);
    assert Derivable(declarations, subject, derived);
    r := Some(Rendered(derived));
  }

  /** A reference to another issue of the subject's own repository. */
  predicate IsOwn(r: Reference, subject: string) {
    !Foreign(r, RepoOf(subject)) && Token(r, RepoOf(subject)) != subject
  }

  predicate Mechanical(d: Declaration, subject: string) {
    d.Names? ==> d.references != [] && forall k :: 0 <= k < |d.references| ==> IsOwn(d.references[k], subject)
  }

  /** Distinct exact subjects other than the issue's own. */
  ghost predicate Own(tokens: seq<string>, subject: string) {
    && (forall k :: 0 <= k < |tokens| ==> IsSubject(tokens[k]) && tokens[k] != subject)
    && forall i, j :: 0 <= i < j < |tokens| ==> tokens[i] != tokens[j]
  }

  ghost predicate NamesToken(declarations: seq<Declaration>, repo: string, token: string) {
    exists d, r :: d in declarations && d.Names? && r in d.references && Token(r, repo) == token
  }

  /** The tokens are exactly what the declarations name. */
  ghost predicate Named(declarations: seq<Declaration>, repo: string, tokens: seq<string>) {
    forall t :: t in tokens <==> NamesToken(declarations, repo, t)
  }

  ghost predicate Derivable(declarations: seq<Declaration>, subject: string, tokens: seq<string>) {
    && Own(tokens, subject) && Named(declarations, RepoOf(subject), tokens)
    && tokens == Firsts(Mentions(declarations, RepoOf(subject)))
  }

  // ----- the order of the tokens

  ghost function Tokens(references: seq<Reference>, repo: string): (r: seq<string>)
    ensures |r| == |references| && forall k :: 0 <= k < |r| ==> r[k] == Token(references[k], repo)
  {
    seq(|references|, k requires 0 <= k < |references| => Token(references[k], repo))
  }

  /** Every token the declarations name, as often and in the order they do. */
  ghost function Mentions(declarations: seq<Declaration>, repo: string): seq<string> {
    if declarations == [] then []
    else
      var n := |declarations| - 1;
      Mentions(declarations[..n], repo)
      + (if declarations[n].Names? then Tokens(declarations[n].references, repo) else [])
  }

  /** Each once, in the order of its first mention. */
  ghost function Firsts(mentions: seq<string>): seq<string> {
    if mentions == [] then []
    else
      var n := |mentions| - 1;
      var before := Firsts(mentions[..n]);
      if mentions[n] in before then before else before + [mentions[n]]
  }

  lemma FirstsNext(mentions: seq<string>, t: string)
    ensures Firsts(mentions + [t]) == if t in Firsts(mentions) then Firsts(mentions) else Firsts(mentions) + [t]
  {
    assert (mentions + [t])[..|mentions|] == mentions;
  }

  lemma FirstsBehind(before: seq<string>, tokens: seq<string>, j: nat)
    requires j < |tokens|
    ensures var kept := Firsts(before + tokens[..j]);
            Firsts(before + tokens[..j + 1]) == if tokens[j] in kept then kept else kept + [tokens[j]]
  {
    assert before + tokens[..j + 1] == before + tokens[..j] + [tokens[j]];
    FirstsNext(before + tokens[..j], tokens[j]);
  }

  lemma FirstsWhole(before: seq<string>, tokens: seq<string>)
    ensures before + tokens[..0] == before && before + tokens[..|tokens|] == before + tokens
  {
  }

  function FirstAt(mentions: seq<string>, k: nat): Option<string> {
    if k < |mentions| && mentions[k] !in mentions[..k] then Some(mentions[k]) else None
  }

  lemma {:induction false} FirstsHold(mentions: seq<string>)
    ensures forall t :: t in Firsts(mentions) <==> t in mentions
  {
    if mentions == [] {
    } else {
      var n := |mentions| - 1;
      FirstsHold(mentions[..n]);
      assert mentions == mentions[..n] + [mentions[n]];
    }
  }

  lemma FirstsInFront(mentions: seq<string>, n: nat)
    requires n <= |mentions|
    ensures forall k: nat :: k < n ==> FirstAt(mentions[..n], k) == FirstAt(mentions, k)
  {
    forall k: nat | k < n ensures FirstAt(mentions[..n], k) == FirstAt(mentions, k) {
      assert mentions[..n][..k] == mentions[..k];
    }
  }

  /** The tokens kept are those at the places of first mention, in order. */
  lemma {:induction false} FirstsExact(mentions: seq<string>)
    ensures Picks(|mentions|, (k: nat) => FirstAt(mentions, k), Firsts(mentions))
  {
    var pick := (k: nat) => FirstAt(mentions, k);
    if mentions == [] {
      PicksNothing(pick);
    } else {
      var n := |mentions| - 1;
      var front := mentions[..n];
      FirstsExact(front);
      FirstsHold(front);
      FirstsInFront(mentions, n);
      PicksNext(n, (k: nat) => FirstAt(front, k), pick, Firsts(front));
      assert Firsts(front) + [] == Firsts(front);
    }
  }

  /** What is mentioned is what the declarations name. */
  lemma {:induction false} MentionsNamed(declarations: seq<Declaration>, repo: string)
    ensures forall t :: t in Mentions(declarations, repo) <==> NamesToken(declarations, repo, t)
  {
    if declarations != [] {
      var n := |declarations| - 1;
      var front, d := declarations[..n], declarations[n];
      MentionsNamed(front, repo);
      forall t ensures t in Mentions(declarations, repo) <==> NamesToken(declarations, repo, t) {
        MentionNamed(front, d, repo, t);
        assert declarations == front + [d];
      }
    }
  }

  lemma MentionNamed(front: seq<Declaration>, d: Declaration, repo: string, t: string)
    requires t in Mentions(front, repo) <==> NamesToken(front, repo, t)
    ensures t in Mentions(front + [d], repo) <==> NamesToken(front + [d], repo, t)
  {
    MentionsNext(front, d, repo);
    if d.Names? && t in Tokens(d.references, repo) {
      var k :| 0 <= k < |d.references| && Tokens(d.references, repo)[k] == t;
      assert d in front + [d] && d.references[k] in d.references;
    }
    if NamesToken(front, repo, t) {
      var e, r :| e in front && e.Names? && r in e.references && Token(r, repo) == t;
      assert e in front + [d];
    }
    if NamesToken(front + [d], repo, t) {
      var e, r :| e in front + [d] && e.Names? && r in e.references && Token(r, repo) == t;
      if e == d {
        var k :| 0 <= k < |d.references| && d.references[k] == r;
        assert Tokens(d.references, repo)[k] == t;
      } else {
        assert e in front;
      }
    }
  }

  lemma MentionsNext(declarations: seq<Declaration>, d: Declaration, repo: string)
    ensures Mentions(declarations + [d], repo) ==
            Mentions(declarations, repo) + (if d.Names? then Tokens(d.references, repo) else [])
  {
    assert (declarations + [d])[..|declarations|] == declarations;
  }

  lemma {:induction false} FirstsAreOwn(mentions: seq<string>, subject: string)
    requires forall t :: t in mentions ==> IsSubject(t) && t != subject
    ensures Own(Firsts(mentions), subject)
  {
    if mentions == [] {
    } else {
      var n := |mentions| - 1;
      assert forall t :: t in mentions[..n] ==> t in mentions;
      FirstsAreOwn(mentions[..n], subject);
      assert mentions[n] in mentions;
      OwnSnoc(Firsts(mentions[..n]), mentions[n], subject);
    }
  }

  /** What mechanical declarations name is derivable. */
  lemma MechanicalDerives(declarations: seq<Declaration>, subject: string)
    requires IsSubject(subject) && WellRead(declarations)
    requires forall k :: 0 <= k < |declarations| ==> Mechanical(declarations[k], subject)
    ensures Derivable(declarations, subject, Firsts(Mentions(declarations, RepoOf(subject))))
  {
    var repo := RepoOf(subject);
    MentionsNamed(declarations, repo);
    FirstsHold(Mentions(declarations, repo));
    forall t | t in Mentions(declarations, repo) ensures IsSubject(t) && t != subject {
      var d, r :| d in declarations && d.Names? && r in d.references && Token(r, repo) == t;
      OwnReference(d, r, subject);
    }
    FirstsAreOwn(Mentions(declarations, repo), subject);
  }

  lemma OwnReference(d: Declaration, r: Reference, subject: string)
    requires d.Names? && r in d.references && Mechanical(d, subject) && IsSubject(subject) && IsReference(r)
    ensures IsSubject(Token(r, RepoOf(subject))) && Token(r, RepoOf(subject)) != subject
  {
    var k :| 0 <= k < |d.references| && d.references[k] == r;
    assert IsOwn(d.references[k], subject);
    TokenIsSubject(r, subject);
  }

  function Rendered(tokens: seq<string>): string {
    if tokens == [] then NO_DEPENDENCIES else Join(tokens, ", ")
  }

  lemma TokenIsSubject(r: Reference, subject: string)
    requires IsSubject(subject) && IsReference(r) && !Foreign(r, RepoOf(subject))
    ensures IsSubject(Token(r, RepoOf(subject)))
  {
    SplitHasNoSeparator(subject, '#');
    var repo := RepoOf(subject);
    assert '#' !in r.number by {
      forall k | 0 <= k < |r.number| ensures r.number[k] != '#' { assert IsDigit(r.number[k]); }
    }
    SplitConcat(repo, r.number, '#');
    SplitWhole(r.number, '#');
  }

  // ----- what is derived is accepted

  /** Parts joined by ", " come apart at the commas, each later one behind its space. */
  function Spaced(tokens: seq<string>): (r: seq<string>)
    ensures |r| == |tokens|
  {
    seq(|tokens|, k requires 0 <= k < |tokens| => if k == 0 then tokens[k] else " " + tokens[k])
  }

  lemma SplitAfterSpace(tail: string)
    ensures Split(" " + tail, ',') == [" " + Split(tail, ',')[0]] + Split(tail, ',')[1..]
  {
    var s := " " + tail;
    assert s[0] == ' ' && s[1..] == tail;
  }

  lemma SpacedCons(tokens: seq<string>)
    requires |tokens| > 1
    ensures Spaced(tokens) == [tokens[0]] + ([" " + tokens[1]] + Spaced(tokens[1..])[1..])
  {
  }

  lemma {:induction false} SplitSpaced(tokens: seq<string>)
    requires tokens != [] && forall k :: 0 <= k < |tokens| ==> ',' !in tokens[k]
    ensures Split(Join(tokens, ", "), ',') == Spaced(tokens)
  {
    if |tokens| == 1 {
      SplitWhole(tokens[0], ',');
    } else {
      var tail := Join(tokens[1..], ", ");
      SplitSpaced(tokens[1..]);
      assert Join(tokens, ", ") == tokens[0] + [','] + (" " + tail);
      SplitConcat(tokens[0], " " + tail, ',');
      SplitAfterSpace(tail);
      SpacedCons(tokens);
    }
  }

  lemma SubjectIsTight(s: string)
    requires IsSubject(s)
    ensures ',' !in s && s != [] && !IsSpace(s[0]) && !IsSpace(s[|s| - 1])
  {
    SubjectChars(s);
    JoinSplit(s, '#');
  }

  predicate IsSubjectChar(c: char) {
    IsNameChar(c) || c == '/' || c == '#'
  }

  lemma SubjectChars(s: string)
    requires IsSubject(s)
    ensures s != [] && forall k :: 0 <= k < |s| ==> IsSubjectChar(s[k])
  {
    var parts := Split(s, '#');
    JoinSplit(s, '#');
    assert s == parts[0] + ['#'] + parts[1] by { assert parts == [parts[0], parts[1]] && parts[1..] == [parts[1]]; }
    var names := Split(parts[0], '/');
    JoinSplit(parts[0], '/');
    assert parts[0] == names[0] + ['/'] + names[1] by {
      assert names == [names[0], names[1]] && names[1..] == [names[1]];
    }
    forall k | 0 <= k < |s| ensures IsSubjectChar(s[k]) {
      var n := |names[0]|;
      if k < n { assert s[k] == names[0][k]; }
      else if n < k < |parts[0]| { assert s[k] == parts[0][k] == names[1][k - n - 1]; }
      else if k > |parts[0]| { assert s[k] == parts[1][k - |parts[0]| - 1]; }
    }
  }

  lemma SpacedToken(tokens: seq<string>, k: nat, subject: string)
    requires Own(tokens, subject) && k < |tokens|
    ensures Strip(Spaced(tokens)[k]) == tokens[k] && IsSubject(tokens[k]) && tokens[k] != subject
    ensures tokens[k] !in tokens[..k]
  {
    SubjectIsTight(tokens[k]);
    StripNothing(tokens[k]);
    StripLeadingSpace(tokens[k]);
  }

  lemma SpacedNext(tokens: seq<string>, n: nat, subject: string, spaced: seq<string>)
    requires Own(tokens, subject) && n < |tokens| && spaced == Spaced(tokens)
    requires Accepted(spaced[..n], subject) == Some(tokens[..n])
    ensures Accepted(spaced[..n + 1], subject) == Some(tokens[..n + 1])
  {
    AcceptedNext(spaced, n, tokens[..n], subject);
    SpacedToken(tokens, n, subject);
    assert tokens[..n + 1] == tokens[..n] + [tokens[n]];
  }

  lemma {:induction false} AcceptedSpaced(tokens: seq<string>, n: nat, subject: string)
    requires Own(tokens, subject) && n <= |tokens|
    ensures Accepted(Spaced(tokens)[..n], subject) == Some(tokens[..n])
  {
    if n == 0 {
      assert Spaced(tokens)[..0] == [] && tokens[..0] == [];
    } else {
      AcceptedSpaced(tokens, n - 1, subject);
      SpacedNext(tokens, n - 1, subject, Spaced(tokens));
    }
  }

  lemma {:induction false} JoinEnds(tokens: seq<string>)
    requires tokens != [] && forall k :: 0 <= k < |tokens| ==> IsSubject(tokens[k])
    ensures var s := Join(tokens, ", "); s != [] && !IsSpace(s[0]) && !IsSpace(s[|s| - 1]) && '#' in s
  {
    SubjectIsTight(tokens[0]);
    HasHash(tokens[0]);
    if |tokens| <= 1 {
    } else {
      JoinEnds(tokens[1..]);
    }
  }

  lemma HasHash(s: string)
    requires IsSubject(s)
    ensures '#' in s
  {
    if '#' !in s { SplitWhole(s, '#'); }
  }

  /** The marker value derive_dependencies writes is always accepted by parse_dependencies, as those tokens. */
  lemma DerivedIsAccepted(tokens: seq<string>, subject: string)
    requires Own(tokens, subject)
    ensures Parsed(Some(Rendered(tokens)), subject) == Some(tokens)
  {
    if tokens == [] {
      StripNothing(NO_DEPENDENCIES);
    } else {
      var s := Join(tokens, ", ");
      JoinEnds(tokens);
      StripNothing(s);
      forall k | 0 <= k < |tokens| ensures ',' !in tokens[k] { SubjectIsTight(tokens[k]); }
      SplitSpaced(tokens);
      AcceptedSpaced(tokens, |tokens|, subject);
      assert Spaced(tokens)[..|tokens|] == Spaced(tokens) && tokens[..|tokens|] == tokens;
    }
  }

  lemma RenderedIsTight(tokens: seq<string>, subject: string)
    requires Own(tokens, subject)
    ensures Strip(Rendered(tokens)) == Rendered(tokens)
  {
    if tokens == [] {
      StripNothing(NO_DEPENDENCIES);
    } else {
      JoinEnds(tokens);
      StripNothing(Join(tokens, ", "));
    }
  }
}
