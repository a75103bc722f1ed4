/** Declared write boundaries and when two of them meet (issue_contract.py:337-388). */
module Boundary {
  import opened Wrappers
  import opened Ordering
  import opened Text

  // ----- one declared prefix

  predicate IsSegmentChar(c: char) {
    'A' <= c <= 'Z' || 'a' <= c <= 'z' || '0' <= c <= '9' || c == '.' || c == '_' || c == '-'
  }

  /** `^[A-Za-z0-9._-]+$`: the final `$` also admits one newline at the end. */
  predicate MatchesSegment(s: string) {
    IsCleanSegment(s) || (s != [] && s[|s| - 1] == '\n' && IsCleanSegment(s[..|s| - 1]))
  }

  /** `[A-Za-z0-9._-]+`, the documented alphabet. */
  predicate IsCleanSegment(s: string) {
    s != [] && forall k :: 0 <= k < |s| ==> IsSegmentChar(s[k])
  }

  predicate GoodSegment(s: string) {
    s != "." && s != ".." && MatchesSegment(s)
  }

  function TrimSlashes(s: string): string {
    if s != [] && s[|s| - 1] == '/' then TrimSlashes(s[..|s| - 1]) else s
  }

  function Segments(prefix: string): Option<seq<string>> {
    var raw := Strip(prefix);
    if raw == [] || raw[0] == '/' then None
    else
      var trimmed := TrimSlashes(raw);
      if trimmed == [] then None
      else
        var segments := Split(trimmed, '/');
        if forall k :: 0 <= k < |segments| ==> GoodSegment(segments[k]) then Some(segments) else None
  }

  // ----- the declaration

  function Lower(s: string): string {
    seq(|s|, k requires 0 <= k < |s| => if 'A' <= s[k] <= 'Z' then (s[k] as int + 32) as char else s[k])
  }

  const NO_WRITE_BOUNDARY := "none"

  /** One token's normalized prefix. */
  function Prefix(token: string): Option<string> {
    var segments := Segments(Strip(token));
    if segments.None? then None else Some(Join(segments.value, "/"))
  }

  /** The surface a list of tokens declares: None once any token is not a prefix, else the
      distinct normalized prefixes in order of first mention. */
  function Declared(tokens: seq<string>): Option<seq<string>> {
    if tokens == [] then Some([])
    else
      var before, last := Declared(tokens[..|tokens| - 1]), Prefix(tokens[|tokens| - 1]);
      if before.None? || last.None? then None
      else if last.value in before.value then before
      else Some(before.value + [last.value])
  }

  function Surface(raw: Option<string>): Option<seq<string>> {
    var value := Strip(if raw.Some? then raw.value else "");
    if value == [] then None
    else if Lower(value) == NO_WRITE_BOUNDARY then Some([])
    else Declared(Split(value, ','))
  }

  lemma {:induction false} DeclaredPrefix(tokens: seq<string>, k: nat)
    requires k <= |tokens| && Declared(tokens[..k]).None?
    ensures Declared(tokens).None?
    decreases |tokens| - k
  {
    if k < |tokens| {
      assert tokens[..k + 1][..k] == tokens[..k];
      DeclaredPrefix(tokens, k + 1);
    } else {
      assert tokens[..k] == tokens;
    }
  }

  lemma {:induction false} DeclaredNonempty(tokens: seq<string>)
    requires tokens != [] && Declared(tokens).Some?
    ensures Declared(tokens).value != []
  {
    if |tokens| <= 1 {
    } else {
      DeclaredNonempty(tokens[..|tokens| - 1]);
    }
  }

  /** One more token: ambiguous, known already, or one more prefix. */
  lemma DeclaredNext(tokens: seq<string>, k: nat, prefixes: seq<string>)
    requires k < |tokens| && Declared(tokens[..k]) == Some(prefixes)
    ensures var last := Prefix(tokens[k]);
            Declared(tokens[..k + 1]) == if last.None? then None
              else if last.value in prefixes then Some(prefixes) else Some(prefixes + [last.value])
  {
    assert tokens[..k + 1][..k] == tokens[..k];
  }

  method ParseWriteBoundary(raw: Option<string>) returns (r: Option<seq<string>>)
    ensures r == Surface(raw)
  {
    var value := Strip(if raw.Some? then raw.value else "");
    if value == [] {
      return None;
    }
    if Lower(value) == NO_WRITE_BOUNDARY {
      return Some([]);
    }
    var prefixes: seq<string> := [];
    var tokens := Split(value, ',');
    for k := 0 to |tokens|
      invariant Declared(tokens[..k]) == Some(prefixes)
    {
      DeclaredNext(tokens, k, prefixes);
      var segments := Segments(Strip(tokens[k]));
      if segments.None? {
        DeclaredPrefix(tokens, k + 1);
        return None;
      }
      var normalized := Join(segments.value, "/");
      if normalized !in prefixes {
        prefixes := prefixes + [normalized];
      }
    }
    assert tokens[..|tokens|] == tokens;
    DeclaredNonempty(tokens);
    r := if prefixes != [] then Some(prefixes) else None;
  }

  /** Every declared prefix is a relative path of good segments that splitting recovers,
      and no prefix is declared twice. */
  lemma {:induction false} DeclaredAreRelativePaths(tokens: seq<string>)
    requires Declared(tokens).Some?
    ensures var ps := Declared(tokens).value;
            && (forall i :: 0 <= i < |ps| ==> IsRelativePath(ps[i]))
            && forall i, j :: 0 <= i < j < |ps| ==> ps[i] != ps[j]
  {
    if tokens == [] {
    } else {
      DeclaredAreRelativePaths(tokens[..|tokens| - 1]);
      var segments := Segments(Strip(tokens[|tokens| - 1])).value;
      SplitHasNoSeparator(TrimSlashes(Strip(Strip(tokens[|tokens| - 1]))), '/');
      SplitJoin(segments, '/');
    }
  }

  ghost predicate Names(tokens: seq<string>, prefix: Option<string>) {
    exists k :: 0 <= k < |tokens| && Prefix(tokens[k]) == prefix
  }

  lemma NamesSnoc(tokens: seq<string>, token: string, prefix: Option<string>)
    ensures Names(tokens + [token], prefix) <==> Names(tokens, prefix) || Prefix(token) == prefix
  {
    var all := tokens + [token];
    assert all[|tokens|] == token;
    if k :| 0 <= k < |tokens| && Prefix(tokens[k]) == prefix { assert Prefix(all[k]) == prefix; }
  }

  /** A declaration is ambiguous exactly when some token is no prefix, and otherwise declares exactly the
      normalized prefixes of its tokens. */
  lemma {:induction false} DeclaredExact(tokens: seq<string>)
    ensures Declared(tokens).None? <==> Names(tokens, None)
    ensures Declared(tokens).Some? ==> forall p :: p in Declared(tokens).value <==> Names(tokens, Some(p))
  {
    if tokens == [] {
    } else {
      var before, last := tokens[..|tokens| - 1], tokens[|tokens| - 1];
      assert tokens == before + [last];
      DeclaredExact(before);
      forall p ensures Names(tokens, p) <==> Names(before, p) || Prefix(last) == p { NamesSnoc(before, last, p); }
    }
  }

  /** Token k is the first to name its prefix. */
  function FirstNamed(tokens: seq<string>, k: nat): Option<string> {
    if k < |tokens| && Prefix(tokens[k]).Some? && forall i :: 0 <= i < k ==> Prefix(tokens[i]) != Prefix(tokens[k])
    then Prefix(tokens[k]) else None
  }

  lemma FirstNamedInFront(tokens: seq<string>, n: nat, k: nat)
    requires k < n <= |tokens|
    ensures FirstNamed(tokens[..n], k) == FirstNamed(tokens, k)
  {
    var front := tokens[..n];
    assert forall i :: 0 <= i <= k ==> front[i] == tokens[i];
  }

  lemma NamedBefore(tokens: seq<string>, n: nat)
    requires n < |tokens| && Prefix(tokens[n]).Some?
    ensures FirstNamed(tokens, n).Some? <==> !Names(tokens[..n], Prefix(tokens[n]))
  {
    var front, p := tokens[..n], Prefix(tokens[n]);
    if k :| 0 <= k < |front| && Prefix(front[k]) == p { assert tokens[k] == front[k]; }
    if i :| 0 <= i < n && Prefix(tokens[i]) == p { assert front[i] == tokens[i] && Names(front, p); }
  }

  lemma LastNamed(tokens: seq<string>)
    requires tokens != [] && Declared(tokens).Some?
    ensures var n := |tokens| - 1; var front := Declared(tokens[..n]).value;
            Declared(tokens).value ==
            front + (if FirstNamed(tokens, n).Some? then [FirstNamed(tokens, n).value] else [])
  {
    var n := |tokens| - 1;
    var front := Declared(tokens[..n]).value;
    DeclaredNext(tokens, n, front);
    assert tokens[..n + 1] == tokens;
    NamedLast(tokens, n, front);
    assert front + [] == front;
  }

  lemma NamedLast(tokens: seq<string>, n: nat, front: seq<string>)
    requires n < |tokens| && Declared(tokens[..n]) == Some(front) && Prefix(tokens[n]).Some?
    ensures FirstNamed(tokens, n) == if Prefix(tokens[n]).value in front then None else Prefix(tokens[n])
  {
    NamedBefore(tokens, n);
    NamedIsDeclared(tokens[..n], Prefix(tokens[n]).value);
  }

  lemma NamedIsDeclared(tokens: seq<string>, p: string)
    requires Declared(tokens).Some?
    ensures p in Declared(tokens).value <==> Names(tokens, Some(p))
  {
    DeclaredExact(tokens);
  }

  /** The prefixes stand in the order their tokens first name them. */
  lemma {:induction false} DeclaredInOrder(tokens: seq<string>)
    requires Declared(tokens).Some?
    ensures Picks(|tokens|, (k: nat) => FirstNamed(tokens, k), Declared(tokens).value)
  {
    var pick := (k: nat) => FirstNamed(tokens, k);
    if tokens == [] {
      PicksNothing(pick);
    } else {
      var n := |tokens| - 1;
      DeclaredInOrder(tokens[..n]);
      forall k: nat | k < n ensures FirstNamed(tokens[..n], k) == pick(k) { FirstNamedInFront(tokens, n, k); }
      PicksNext(n, (k: nat) => FirstNamed(tokens[..n], k), pick, Declared(tokens[..n]).value);
      LastNamed(tokens);
    }
  }

  // ----- what a declaration says

  /** A blank or missing marker declares nothing, `none` in any case declares an empty surface, and anything else the
      prefixes of its comma-separated tokens. */
  lemma SurfaceExact(raw: Option<string>)
    ensures var value := Strip(if raw.Some? then raw.value else "");
            && (value == "" ==> Surface(raw) == None)
            && (Spells(value, "none") ==> Surface(raw) == Some([]))
            && (Surface(raw) == Some([]) ==> Spells(value, "none"))
            && (value != "" && !Spells(value, "none") ==> Surface(raw) == Declared(Split(value, ',')))
  {
    var value := Strip(if raw.Some? then raw.value else "");
    LowerSpells(value);
    if value != [] && Lower(value) != "none" && Declared(Split(value, ',')).Some? {
      DeclaredNonempty(Split(value, ','));
    }
  }

  /** The text spells the word, letter by letter, in lower or upper case. */
  predicate Spells(s: string, word: string) {
    |s| == |word| && forall k :: 0 <= k < |s| ==> s[k] == word[k] || IsUpperOf(s[k], word[k])
  }

  predicate IsUpperOf(a: char, b: char) {
    'A' <= a <= 'Z' && a as int + 32 == b as int
  }

  lemma LowerSpells(s: string)
    ensures Lower(s) == "none" <==> Spells(s, "none")
  {
    var word := "none";
    assert forall k :: 0 <= k < |word| ==> 'a' <= word[k] <= 'z';
    if Spells(s, word) {
      forall k | 0 <= k < |s| ensures Lower(s)[k] == word[k] {}
      assert Lower(s) == word;
    }
    if Lower(s) == word {
      forall k | 0 <= k < |s| ensures s[k] == word[k] || IsUpperOf(s[k], word[k]) { assert Lower(s)[k] == word[k]; }
    }
  }

  lemma {:induction false} TrimExact(s: string)
    ensures TrimSlashes(s) <= s && (TrimSlashes(s) != [] ==> TrimSlashes(s)[|TrimSlashes(s)| - 1] != '/')
    ensures forall k :: |TrimSlashes(s)| <= k < |s| ==> s[k] == '/'
  {
    if s == [] || s[|s| - 1] != '/' {
    } else {
      TrimExact(s[..|s| - 1]);
    }
  }

  /** A token is a prefix exactly when, stripped, it does not begin with a slash and, its closing slashes off, has only
      segments of word characters, one newline allowed at a segment's end, none of them `.` or `..`; the prefix is that
      text. */
  lemma PrefixExact(token: string)
    ensures var trimmed := TrimSlashes(Strip(token));
            && (Prefix(token).Some? <==>
                  trimmed != "" && trimmed[0] != '/' && forall s :: s in Split(trimmed, '/') ==> GoodWord(s))
            && (Prefix(token).Some? ==> Prefix(token).value == trimmed)
  {
    var raw := Strip(token);
    var trimmed := TrimSlashes(raw);
    StripTwice(token);
    TrimExact(raw);
    JoinSplit(trimmed, '/');
    AllGoodWords(Split(trimmed, '/'));
    if trimmed != "" { assert trimmed[0] == raw[0]; }
  }

  lemma AllGoodWords(segments: seq<string>)
    ensures (forall k :: 0 <= k < |segments| ==> GoodSegment(segments[k])) <==>
            forall s :: s in segments ==> GoodWord(s)
  {
    forall s ensures GoodSegment(s) <==> GoodWord(s) { WordExact(s); }
    if forall s :: s in segments ==> GoodWord(s) {
      forall k | 0 <= k < |segments| ensures GoodSegment(segments[k]) { assert segments[k] in segments; }
    }
  }

  predicate GoodWord(s: string) {
    s != "." && s != ".." && IsWord(s)
  }

  /** One word character or more, and then perhaps one newline. */
  predicate IsWord(s: string) {
    && s != "" && IsSegmentChar(s[0])
    && forall k :: 0 <= k < |s| ==> IsSegmentChar(s[k]) || (s[k] == '\n' && k == |s| - 1)
  }

  lemma WordExact(s: string)
    ensures MatchesSegment(s) <==> IsWord(s)
  {
  }

  /** The word characters are the letters, the digits, `.`, `_` and `-`. */
  lemma WordChars(c: char)
    ensures IsSegmentChar(c) <==>
              || c in "ABCDEFGHIJKLMNOPQRSTUVWXYZ" || c in "abcdefghijklmnopqrstuvwxyz" || c in "0123456789"
              || c in "._-"
  {
    UpperLetter(c);
    LowerLetter(c);
    DigitLetter(c);
  }

  lemma UpperLetter(c: char)
    ensures c in "ABCDEFGHIJKLMNOPQRSTUVWXYZ" <==> 'A' <= c <= 'Z'
  {
    var s := "ABCDEFGHIJKLMNOPQRSTUVWXYZ";
    if 'A' <= c <= 'Z' { assert s[c as int - 'A' as int] == c; }
  }

  lemma LowerLetter(c: char)
    ensures c in "abcdefghijklmnopqrstuvwxyz" <==> 'a' <= c <= 'z'
  {
    var s := "abcdefghijklmnopqrstuvwxyz";
    if 'a' <= c <= 'z' { assert s[c as int - 'a' as int] == c; }
  }

  lemma DigitLetter(c: char)
    ensures c in "0123456789" <==> '0' <= c <= '9'
  {
    var s := "0123456789";
    if '0' <= c <= '9' { assert s[c as int - '0' as int] == c; }
  }

  ghost predicate IsRelativePath(p: string) {
    forall k :: 0 <= k < |Split(p, '/')| ==> GoodSegment(Split(p, '/')[k])
  }

  // ----- the documented alphabet, and the newline that slips past it

  ghost predicate IsCleanPath(p: string) {
    forall k :: 0 <= k < |Split(p, '/')| ==> IsCleanSegment(Split(p, '/')[k])
  }

  lemma SegmentCleanExact(s: string)
    requires GoodSegment(s)
    ensures IsCleanSegment(s) <==> '\n' !in s
  {
    if IsCleanSegment(s) {
      forall k | 0 <= k < |s| ensures s[k] != '\n' { assert IsSegmentChar(s[k]); }
    } else {
      assert s[|s| - 1] == '\n';
    }
  }

  /** A declared prefix keeps to the documented alphabet exactly when it holds no newline. */
  lemma PathCleanExact(p: string)
    requires IsRelativePath(p)
    ensures IsCleanPath(p) <==> '\n' !in p
  {
    var segments := Split(p, '/');
    forall k | 0 <= k < |segments| ensures IsCleanSegment(segments[k]) <==> '\n' !in segments[k] {
      SegmentCleanExact(segments[k]);
    }
    JoinSplit(p, '/');
    JoinHas(segments, ['/'], '\n');
  }

  lemma {:induction false} TrimKeeps(s: string, c: char)
    requires c != '/'
    ensures c in TrimSlashes(s) <==> c in s
  {
    if s == [] || s[|s| - 1] != '/' {
    } else {
      TrimKeeps(s[..|s| - 1], c);
      assert s == s[..|s| - 1] + ['/'];
    }
  }

  lemma PrefixKeeps(token: string, c: char)
    requires Prefix(token).Some? && c != '/'
    ensures c in Prefix(token).value <==> c in Strip(token)
  {
    StripTwice(token);
    JoinSplit(TrimSlashes(Strip(token)), '/');
    TrimKeeps(Strip(token), c);
  }

  /** Some declared prefix leaves the documented alphabet exactly when some token, stripped, holds a newline. */
  lemma DeclaredCleanExact(tokens: seq<string>)
    requires Declared(tokens).Some?
    ensures (forall p :: p in Declared(tokens).value ==> IsCleanPath(p))
       <==> forall k :: 0 <= k < |tokens| ==> '\n' !in Strip(tokens[k])
  {
    var ps := Declared(tokens).value;
    DeclaredExact(tokens);
    DeclaredAreRelativePaths(tokens);
    forall p | p in ps ensures IsCleanPath(p) <==> '\n' !in p { PathCleanExact(p); }
    forall k | 0 <= k < |tokens|
      ensures Prefix(tokens[k]).Some? && Prefix(tokens[k]).value in ps
      ensures '\n' in Strip(tokens[k]) <==> '\n' in Prefix(tokens[k]).value
    {
      assert Names(tokens, Prefix(tokens[k]));
      PrefixKeeps(tokens[k], '\n');
    }
    forall p | p in ps
      ensures exists k :: 0 <= k < |tokens| && Prefix(tokens[k]) == Some(p) { assert Names(tokens, Some(p)); }
  }

  lemma LetterIsGood(c: char)
    requires 'a' <= c <= 'z'
    ensures GoodSegment([c]) && GoodSegment([c, '\n'])
  {
    assert [c, '\n'][..1] == [c];
  }

  lemma OneToken(token: string)
    requires Prefix(token).Some?
    ensures Declared([token]) == Some([Prefix(token).value])
  {
    assert [token][..0] == [] && [] + [Prefix(token).value] == [Prefix(token).value];
  }

  lemma NewlineSegments()
    ensures Split("a\n/b", '/') == ["a\n", "b"] && Prefix("a\n/b") == Some("a\n/b")
  {
    var value := "a\n/b";
    assert "a\n" + ['/'] + "b" == value;
    SplitWhole("b", '/');
    SplitConcat("a\n", "b", '/');
    LetterIsGood('a');
    LetterIsGood('b');
    StripNothing(value);
    JoinSplit(value, '/');
  }

  lemma SurfaceOfToken(value: string)
    requires Prefix(value).Some? && Strip(value) == value && value != [] && ',' !in value
    requires Lower(value) != NO_WRITE_BOUNDARY
    ensures Surface(Some(value)) == Some([Prefix(value).value])
  {
    SplitWhole(value, ',');
    OneToken(value);
  }

  lemma UncleanAt(p: string, k: nat, j: nat)
    requires k < |Split(p, '/')| && j < |Split(p, '/')[k]| && !IsSegmentChar(Split(p, '/')[k][j])
    ensures !IsCleanPath(p)
  {
  }

  lemma NewlineToken()
    ensures var value := "a\n/b"; Strip(value) == value && ',' !in value && Lower(value) != NO_WRITE_BOUNDARY
  {
    var value := "a\n/b";
    StripNothing(value);
    assert Lower(value)[0] == 'a';
  }

  /** A declaration that shows it: the newline inside the first segment survives into the declared prefix. */
  lemma NewlineIsDeclared()
    ensures Surface(Some("a\n/b")) == Some(["a\n/b"]) && !IsCleanPath("a\n/b")
  {
    NewlineSegments();
    NewlineToken();
    SurfaceOfToken("a\n/b");
    UncleanAt("a\n/b", 0, 1);
  }

  // ----- two declarations

  /** The more specific of two prefixes when one path-contains the other. */
  function Meeting(candidate: string, active: string): Option<string> {
    var c, a := Split(candidate, '/'), Split(active, '/');
    var shorter, longer := if |c| <= |a| then c else a, if |c| <= |a| then a else c;
    if longer[..|shorter|] == shorter then Some(Join(longer, "/")) else None
  }

  function FirstMeeting(candidate: string, active: seq<string>): Option<string> {
    if active == [] then None
    else if Meeting(candidate, active[0]).Some? then Meeting(candidate, active[0])
    else FirstMeeting(candidate, active[1..])
  }

  function Conflict(candidate: seq<string>, active: seq<string>): Option<string> {
    if candidate == [] then None
    else if FirstMeeting(candidate[0], active).Some? then FirstMeeting(candidate[0], active)
    else Conflict(candidate[1..], active)
  }

  /** A path, by segments, at or below a declared prefix. */
  predicate Under(path: seq<string>, prefix: string) {
    Split(prefix, '/') <= path
  }

  ghost predicate Covers(boundary: seq<string>, path: seq<string>) {
    exists k :: 0 <= k < |boundary| && Under(path, boundary[k])
  }

  ghost predicate Disjoint(a: seq<string>, b: seq<string>) {
    forall path :: !(Covers(a, path) && Covers(b, path))
  }

  /** Two prefixes meet exactly when some path lies under both, and what they report is such a path. */
  lemma MeetingExact(c: string, a: string)
    ensures Meeting(c, a).Some? ==> && Meeting(c, a).value in {c, a}
                                    && Under(Split(Meeting(c, a).value, '/'), c)
                                    && Under(Split(Meeting(c, a).value, '/'), a)
    ensures forall path :: Under(path, c) && Under(path, a) ==> Meeting(c, a).Some?
  {
    JoinSplit(c, '/');
    JoinSplit(a, '/');
    forall path | Under(path, c) && Under(path, a) ensures Meeting(c, a).Some? {
      var cs, bs := Split(c, '/'), Split(a, '/');
      assert path[..|cs|] == cs && path[..|bs|] == bs;
      if |cs| <= |bs| {
        assert path[..|bs|][..|cs|] == path[..|cs|];
      } else {
        assert path[..|cs|][..|bs|] == path[..|bs|];
      }
    }
  }

  lemma {:induction false} FirstMeetingExact(c: string, active: seq<string>)
    ensures FirstMeeting(c, active).Some? ==> && Under(Split(FirstMeeting(c, active).value, '/'), c)
                                              && Covers(active, Split(FirstMeeting(c, active).value, '/'))
    ensures forall path :: Under(path, c) && Covers(active, path) ==> FirstMeeting(c, active).Some?
  {
    if active == [] {
    } else {
      MeetingExact(c, active[0]);
      FirstMeetingExact(c, active[1..]);
      CoversCons(active);
    }
  }

  lemma CoversCons(boundary: seq<string>)
    requires boundary != []
    ensures forall path :: Covers(boundary, path) <==> Under(path, boundary[0]) || Covers(boundary[1..], path)
  {
    forall path ensures Covers(boundary, path) <==> Under(path, boundary[0]) || Covers(boundary[1..], path) {
      if k :| 0 <= k < |boundary| && Under(path, boundary[k]) {
        if k > 0 { assert Under(path, boundary[1..][k - 1]); }
      }
      if k :| 0 <= k < |boundary[1..]| && Under(path, boundary[1..][k]) { assert Under(path, boundary[k + 1]); }
    }
  }

  /** boundary_conflict returns None exactly when no path lies at or below a prefix of both
      declarations, and any prefix it returns lies under both. */
  lemma {:induction false} ConflictExact(candidate: seq<string>, active: seq<string>)
    ensures Conflict(candidate, active).None? <==> Disjoint(candidate, active)
    ensures Conflict(candidate, active).Some? ==>
              && Covers(candidate, Split(Conflict(candidate, active).value, '/'))
              && Covers(active, Split(Conflict(candidate, active).value, '/'))
  {
    if candidate == [] {
    } else {
      FirstMeetingExact(candidate[0], active);
      ConflictExact(candidate[1..], active);
      CoversCons(candidate);
    }
  }

  /** Some path lies at or below both prefixes. */
  ghost predicate Meets(a: string, b: string) {
    exists path :: Under(path, a) && Under(path, b)
  }

  lemma MeetsExact(c: string, a: string)
    ensures Meeting(c, a).Some? <==> Meets(c, a)
  {
    MeetingExact(c, a);
    if Meeting(c, a).Some? {
      var path := Split(Meeting(c, a).value, '/');
      assert Under(path, c) && Under(path, a);
    }
  }

  /** The prefix reported of two that meet is the more specific one. */
  ghost predicate IsMeeting(p: string, c: string, a: string) {
    p in {c, a} && Under(Split(p, '/'), c) && Under(Split(p, '/'), a)
  }

  lemma {:induction false} FirstMeetingNames(c: string, active: seq<string>)
    ensures match FirstMeeting(c, active)
            case None => forall j :: 0 <= j < |active| ==> !Meets(c, active[j])
            case Some(p) => exists j :: 0 <= j < |active| && MeetsFirst(c, active, j) && IsMeeting(p, c, active[j])
  {
    if active == [] {
    } else {
      MeetsExact(c, active[0]);
      MeetingExact(c, active[0]);
      if Meeting(c, active[0]).Some? {
        assert MeetsFirst(c, active, 0);
      } else {
        FirstMeetingNames(c, active[1..]);
        if FirstMeeting(c, active[1..]).Some? {
          var p := FirstMeeting(c, active[1..]).value;
          var j :| 0 <= j < |active[1..]| && MeetsFirst(c, active[1..], j) && IsMeeting(p, c, active[1..][j]);
          assert active[1..][j] == active[j + 1];
          assert forall i :: 1 <= i < j + 1 ==> active[i] == active[1..][i - 1];
          assert MeetsFirst(c, active, j + 1);
        } else {
          assert forall i :: 1 <= i < |active| ==> active[i] == active[1..][i - 1];
        }
      }
    }
  }

  /** Active prefix j is the first that c meets. */
  ghost predicate MeetsFirst(c: string, active: seq<string>, j: nat)
    requires j < |active|
  {
    Meets(c, active[j]) && forall i :: 0 <= i < j ==> !Meets(c, active[i])
  }

  ghost predicate MeetsNone(c: string, active: seq<string>) {
    forall j :: 0 <= j < |active| ==> !Meets(c, active[j])
  }

  /** Candidate i is the first to meet an active prefix, and j the first it meets. */
  ghost predicate MeetsAt(candidate: seq<string>, active: seq<string>, i: nat, j: nat)
    requires i < |candidate| && j < |active|
  {
    MeetsFirst(candidate[i], active, j) && forall k :: 0 <= k < i ==> MeetsNone(candidate[k], active)
  }

  /** What is reported is the more specific of the first candidate prefix to meet anything and the first active prefix
      it meets. */
  lemma {:induction false} ConflictNames(candidate: seq<string>, active: seq<string>)
    ensures Conflict(candidate, active).Some? ==>
              exists i, j :: 0 <= i < |candidate| && 0 <= j < |active| && MeetsAt(candidate, active, i, j)
                             && IsMeeting(Conflict(candidate, active).value, candidate[i], active[j])
  {
    if candidate == [] {
    } else {
      FirstMeetingNames(candidate[0], active);
      var first := FirstMeeting(candidate[0], active);
      if first.Some? {
        var j :| 0 <= j < |active| && MeetsFirst(candidate[0], active, j)
                 && IsMeeting(first.value, candidate[0], active[j]);
        assert MeetsAt(candidate, active, 0, j);
      } else if Conflict(candidate[1..], active).Some? {
        ConflictNames(candidate[1..], active);
        var p := Conflict(candidate[1..], active).value;
        var i, j :| 0 <= i < |candidate[1..]| && 0 <= j < |active| && MeetsAt(candidate[1..], active, i, j)
                    && IsMeeting(p, candidate[1..][i], active[j]);
        assert candidate[1..][i] == candidate[i + 1] && MeetsNone(candidate[0], active);
        assert forall k :: 1 <= k < i + 1 ==> candidate[k] == candidate[1..][k - 1];
        assert MeetsAt(candidate, active, i + 1, j);
      }
    }
  }

  lemma ConflictSymmetric(a: seq<string>, b: seq<string>)
    ensures Conflict(a, b).None? <==> Conflict(b, a).None?
  {
    ConflictExact(a, b);
    ConflictExact(b, a);
  }

  /** Containment is by whole segments: two different one-segment prefixes never meet. */
  lemma SiblingsNeverMeet(a: string, b: string)
    requires a != b && '/' !in a && '/' !in b
    ensures Disjoint([a], [b])
  {
    SplitWhole(a, '/');
    SplitWhole(b, '/');
    assert Meeting(a, b).None?;
    ConflictExact([a], [b]);
  }
}
