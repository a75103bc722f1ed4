/** Bodies as text: the marker lines a repair writes, and what the marker patterns read in a text
    (noodles.py:76-98, noodles.py:255-277, noodles.py:3386-3387). */
module MarkerLines {
  import opened Wrappers
  import opened Ordering
  import opened Text
  import opened Intake
  import Dependencies

  function MarkerName(name: Name): string {
    match name
    case Role => "role" case Target => "target" case Subject => "subject" case State => "state"
    case Feature => "feature" case Component => "component" case DependsOn => "depends-on"
    case WriteBoundary => "write-boundary" case Executor => "executor" case Runtime => "runtime"
    case Evidence => "evidence" case Blocker => "blocker" case Relation => "relation" case Observer => "observer"
    case CapabilityProbe => "capability-probe"
    case Normalized => "normalized"
  }

  // ----- the marker patterns

  const OPEN := "<!--"

  const CLOSE := "-->"

  function Key(name: Name): string {
    "noodles-" + MarkerName(name) + ":"
  }

  /** `[0-9a-f]{64}`, whatever the case. */
  predicate IsReceipt(s: string) {
    |s| == 64 && forall k :: 0 <= k < |s| ==> IsDigit(s[k]) || 'a' <= Fold(s[k]) <= 'f'
  }

  /** `<!--\s*noodles-NAME:\s*([^>]+?)\s*--` on the whole text: its value, stripped as every reader does. */
  function Held(p: string, name: Name): Option<string> {
    if !(OPEN <= p) then None
    else
      var t := StripLeft(p[|OPEN|..]);
      if !FoldedPrefix(Key(name), t) then None else Value(t[|Key(name)|..], name)
  }

  /** `\s*([^>]+?)\s*--`, and for the receipt 64 hex digits in its place. */
  function Value(u: string, name: Name): Option<string> {
    if |u| <= 2 || u[|u| - 2..] != "--" then None
    else
      var v := Strip(u[..|u| - 2]);
      if name == Normalized && !IsReceipt(v) then None else Some(v)
  }

  /** A match of the pattern at the front: it holds one `>`, its last character. Its value and its length. */
  function Match(s: string, name: Name): (r: Option<(string, nat)>)
    ensures r.Some? ==> 0 < r.value.1 <= |s|
  {
    var p := UpTo(s, '>');
    if |p| < |s| && Held(p, name).Some? then Some((Held(p, name).value, |p| + 1)) else None
  }

  /** `findall`. */
  function Scan(s: string, name: Name): seq<string>
    decreases |s|
  {
    if s == [] then []
    else
      var m := Match(s, name);
      if m.Some? then [m.value.0] + Scan(s[m.value.1..], name) else Scan(s[1..], name)
  }

  // ----- the markers of a text

  const NAMES: seq<Name> :=
    [Role, Target, Subject, State, Feature, Component, DependsOn, WriteBoundary, Executor, Runtime, Evidence, Blocker,
     Relation, Observer, CapabilityProbe, Normalized]

  function Marked(name: Name, values: seq<string>): seq<Mark> {
    if values == [] then [] else [Mark(name, values[0])] + Marked(name, values[1..])
  }

  function MarksOf(s: string, names: seq<Name>): seq<Mark> {
    if names == [] then [] else Marked(names[0], Scan(s, names[0])) + MarksOf(s, names[1..])
  }

  /** Every marker of the text, name by name. */
  function MarksIn(s: string): seq<Mark> {
    MarksOf(s, NAMES)
  }

  lemma {:induction false} MarkedValues(name: Name, values: seq<string>, other: Name)
    ensures Values(Marked(name, values), other) == if other == name then values else []
  {
    if values == [] {
    } else {
      MarkedValues(name, values[1..], other);
      assert values == [values[0]] + values[1..];
    }
  }

  lemma {:induction false} MarksOfValues(s: string, names: seq<Name>, name: Name)
    requires Distinct(names)
    ensures Values(MarksOf(s, names), name) == if name in names then Scan(s, name) else []
  {
    if names == [] {
    } else {
      var rest := names[1..];
      forall i, j | 0 <= i < j < |rest| ensures rest[i] != rest[j] { assert names[i + 1] != names[j + 1]; }
      MarksOfValues(s, rest, name);
      MarkedValues(names[0], Scan(s, names[0]), name);
      ValuesConcat(Marked(names[0], Scan(s, names[0])), MarksOf(s, rest), name);
      forall k | 0 <= k < |rest| ensures rest[k] != names[0] { assert names[k + 1] != names[0]; }
      assert name in names <==> name == names[0] || name in rest;
    }
  }

  lemma NamesAreDistinct()
    ensures Distinct(NAMES)
  {
  }

  lemma EveryName(name: Name)
    ensures name in NAMES
  {
    match name
    case Role => assert NAMES[0] == name;
    case Target => assert NAMES[1] == name;
    case Subject => assert NAMES[2] == name;
    case State => assert NAMES[3] == name;
    case Feature => assert NAMES[4] == name;
    case Component => assert NAMES[5] == name;
    case DependsOn => assert NAMES[6] == name;
    case WriteBoundary => assert NAMES[7] == name;
    case Executor => assert NAMES[8] == name;
    case Runtime => assert NAMES[9] == name;
    case Evidence => assert NAMES[10] == name;
    case Blocker => assert NAMES[11] == name;
    case Relation => assert NAMES[12] == name;
    case Observer => assert NAMES[13] == name;
    case CapabilityProbe => assert NAMES[14] == name;
    case Normalized => assert NAMES[15] == name;
  }

  /** The marks of a text are what its patterns find. */
  lemma MarksAreScanned(s: string, name: Name)
    ensures Values(MarksIn(s), name) == Scan(s, name)
  {
    EveryName(name);
    NamesAreDistinct();
    MarksOfValues(s, NAMES, name);
  }

  // ----- scanning piece by piece

  /** Every comment that opens here ends here. */
  ghost predicate Closed(s: string) {
    forall i :: 0 <= i < |s| && s[i] == '<' ==> exists j :: i < j < |s| && s[j] == '>'
  }

  lemma ClosedSuffix(s: string, k: nat)
    requires Closed(s) && k <= |s|
    ensures Closed(s[k..])
  {
    var t := s[k..];
    forall i | 0 <= i < |t| && t[i] == '<' ensures exists j :: i < j < |t| && t[j] == '>' {
      assert s[k + i] == '<';
      var j :| k + i < j < |s| && s[j] == '>';
      assert t[j - k] == '>';
    }
  }

  lemma UpToConcat(a: string, b: string, c: char)
    requires c in a
    ensures UpTo(a + b, c) == UpTo(a, c)
  {
    var p := UpTo(a, c);
    assert a + b == p + [c] + (a[|p| + 1..] + b);
    UpToAt(p, c, a[|p| + 1..] + b);
  }

  lemma NoMatch(s: string, name: Name)
    requires s != [] && s[0] != '<'
    ensures Match(s, name).None?
  {
    assert OPEN[0] == '<';
  }

  lemma MatchConcat(a: string, b: string, name: Name)
    requires Closed(a) && a != []
    ensures Match(a + b, name) == Match(a, name)
  {
    assert (a + b)[0] == a[0];
    if a[0] == '<' {
      UpToConcat(a, b, '>');
    } else {
      NoMatch(a, name);
      NoMatch(a + b, name);
    }
  }

  lemma SkipConcat(a: string, b: string, k: nat)
    requires k <= |a|
    ensures (a + b)[k..] == a[k..] + b
  {
  }

  lemma Regrouped(v: string, x: seq<string>, y: seq<string>)
    ensures [v] + (x + y) == [v] + x + y
  {
  }

  /** A closed piece is read by itself. */
  lemma {:induction false} ScanConcat(a: string, b: string, name: Name)
    requires Closed(a)
    ensures Scan(a + b, name) == Scan(a, name) + Scan(b, name)
    decreases |a|
  {
    if a == [] {
      assert a + b == b;
    } else {
      var m := Match(a, name);
      var k := if m.Some? then m.value.1 else 1;
      MatchConcat(a, b, name);
      SkipConcat(a, b, k);
      ClosedSuffix(a, k);
      ScanConcat(a[k..], b, name);
      if m.Some? { Regrouped(m.value.0, Scan(a[k..], name), Scan(b, name)); }
    }
  }

  /** Text that opens no comment holds no marker. */
  lemma {:induction false} ScanNothing(s: string, name: Name)
    requires '<' !in s
    ensures Scan(s, name) == []
  {
    if s == [] {
    } else {
      NoMatch(s, name);
      ScanNothing(s[1..], name);
    }
  }

  lemma ScanBehind(a: string, b: string, name: Name)
    requires '<' !in a
    ensures Scan(a + b, name) == Scan(b, name)
  {
    ScanConcat(a, b, name);
    ScanNothing(a, name);
    assert [] + Scan(b, name) == Scan(b, name);
  }

  // ----- marker lines

  /** A marker comment up to its `>`. */
  function Comment(name: Name, v: string): string {
    OPEN + (" " + (Key(name) + (v + "--")))
  }

  /** The line that writes a marker. */
  function Line(m: Mark): string {
    Comment(m.name, " " + m.value + " ") + ">" + "\n"
  }

  function Lines(header: seq<Mark>): string {
    Each(header, Line)
  }

  lemma LinesConcat(a: seq<Mark>, b: seq<Mark>)
    ensures Lines(a + b) == Lines(a) + Lines(b)
  {
    EachConcat(a, b, Line);
  }

  lemma LineIsClosed(m: Mark)
    ensures Closed(Line(m))
  {
    var s := Line(m);
    assert s[|s| - 2] == '>' && s[|s| - 1] == '\n';
  }

  lemma ClosedConcat(a: string, b: string)
    requires Closed(a) && Closed(b)
    ensures Closed(a + b)
  {
    var s := a + b;
    forall i | 0 <= i < |s| && s[i] == '<' ensures exists j :: i < j < |s| && s[j] == '>' {
      if i < |a| {
        var j :| i < j < |a| && a[j] == '>';
        assert s[j] == '>';
      } else {
        var j :| i - |a| < j < |b| && b[j] == '>';
        assert s[|a| + j] == '>';
      }
    }
  }

  lemma {:induction false} LinesAreClosed(header: seq<Mark>)
    ensures Closed(Lines(header))
  {
    if header == [] {
    } else {
      LineIsClosed(header[0]);
      LinesAreClosed(header[1..]);
      ClosedConcat(Line(header[0]), Lines(header[1..]));
    }
  }

  lemma LineAlone(m: Mark)
    ensures Lines([m]) == Line(m)
  {
    EachOne(m, Line);
  }

  lemma ScanLines(a: seq<Mark>, b: seq<Mark>, n: Name)
    ensures Scan(Lines(a + b), n) == Scan(Lines(a), n) + Scan(Lines(b), n)
  {
    LinesConcat(a, b);
    LinesAreClosed(a);
    ScanConcat(Lines(a), Lines(b), n);
  }

  // ----- reading a comment back

  predicate IsSmall(s: string) {
    forall k :: 0 <= k < |s| ==> 'a' <= s[k] <= 'z' || s[k] == '-'
  }

  lemma NamesAreSmall(name: Name)
    ensures IsSmall(MarkerName(name)) && |MarkerName(name)| > 1
  {
  }

  lemma KeyChars(name: Name)
    ensures var key := Key(name); IsSmall(key[..|key| - 1]) && key[|key| - 1] == ':' && key[0] == 'n'
    ensures '<' !in Key(name) && '>' !in Key(name)
    ensures IsFolded(Key(name))
  {
    NamesAreSmall(name);
    var key := Key(name);
    assert IsSmall("noodles-");
    assert key[..|key| - 1] == "noodles-" + MarkerName(name);
    forall k | 0 <= k < |key| - 1 ensures 'a' <= key[k] <= 'z' || key[k] == '-' {
      assert key[k] == key[..|key| - 1][k];
    }
  }

  lemma NamesDiffer(m: Name, n: Name)
    requires MarkerName(m) == MarkerName(n)
    ensures m == n
  {
    var s := MarkerName(m);
    assert s[0] == MarkerName(n)[0] && s[1] == MarkerName(n)[1];
  }

  lemma KeysDiffer(m: Name, n: Name)
    requires Key(m) == Key(n)
    ensures m == n
  {
    assert MarkerName(m) == Key(m)[8..|Key(m)| - 1] && MarkerName(n) == Key(n)[8..|Key(n)| - 1];
    NamesDiffer(m, n);
  }

  predicate IsFolded(s: string) {
    forall k :: 0 <= k < |s| ==> Fold(s[k]) == s[k]
  }

  lemma FoldedBegins(key: string, rest: string)
    requires IsFolded(key)
    ensures FoldedPrefix(key, key + rest)
  {
  }

  lemma KeyBegins(m: Name, rest: string)
    ensures FoldedPrefix(Key(m), Key(m) + rest) && Key(m) <= Key(m) + rest
  {
    KeyChars(m);
    FoldedBegins(Key(m), rest);
  }

  lemma KeyOfPrefix(n: Name, m: Name, t: string)
    requires Key(m) <= t && FoldedPrefix(Key(n), t)
    ensures n == m
  {
    KeyChars(m);
    KeyLengths(n, m, t);
    SameKey(Key(n), Key(m), t);
    KeysDiffer(n, m);
  }

  /** A key ends at its first colon, so no key begins another. */
  lemma KeysApart(n: Name, m: Name, rest: string)
    ensures FoldedPrefix(Key(n), Key(m) + rest) <==> n == m
  {
    KeyBegins(m, rest);
    if FoldedPrefix(Key(n), Key(m) + rest) { KeyOfPrefix(n, m, Key(m) + rest); }
  }

  lemma SameKey(a: string, b: string, t: string)
    requires |a| == |b| && b <= t && FoldedPrefix(a, t) && IsFolded(b)
    ensures a == b
  {
  }

  lemma KeyLengths(n: Name, m: Name, t: string)
    requires Key(m) <= t && FoldedPrefix(Key(n), t)
    ensures |Key(n)| == |Key(m)|
  {
    KeyChars(n);
    KeyChars(m);
    var i, j := |Key(n)| - 1, |Key(m)| - 1;
    assert t[j] == ':' && Fold(t[i]) == ':';
  }

  function ValueOf(name: Name, v: string, n: Name): Option<string> {
    if n != name || (n == Normalized && !IsReceipt(Strip(v))) then None else Some(Strip(v))
  }

  lemma StripLeftOne(s: string)
    requires s != [] && !IsSpace(s[0])
    ensures StripLeft(" " + s) == s
  {
    assert (" " + s)[1..] == s;
  }

  lemma HeldBehindOpen(t: string, n: Name)
    requires t != [] && !IsSpace(t[0])
    ensures Held(OPEN + (" " + t), n) ==
            if FoldedPrefix(Key(n), t) then Value(t[|Key(n)|..], n) else None
  {
    assert (OPEN + (" " + t))[|OPEN|..] == " " + t;
    StripLeftOne(t);
  }

  lemma ValueBeforeDashes(v: string, n: Name)
    requires v != []
    ensures Value(v + "--", n) == ValueOf(n, v, n)
  {
    var u := v + "--";
    assert u[|u| - 2..] == "--" && u[..|u| - 2] == v;
  }

  lemma KeyedBy(name: Name, u: string)
    ensures var t := Key(name) + u; t != [] && !IsSpace(t[0]) && t[|Key(name)|..] == u
  {
    KeyChars(name);
    assert (Key(name) + u)[0] == Key(name)[0];
  }

  /** A comment holds the marker it names, and no other. */
  lemma CommentHolds(name: Name, v: string, n: Name)
    requires v != []
    ensures Held(Comment(name, v), n) == ValueOf(name, v, n)
  {
    var u := v + "--";
    KeyedBy(name, u);
    HeldBehindOpen(Key(name) + u, n);
    KeysApart(n, name, u);
    if n == name { ValueBeforeDashes(v, n); }
  }

  lemma CommentChars(name: Name, v: string, c: char)
    requires (c == '<' || c == '>') && c !in v
    ensures c !in Comment(name, v)[1..] && (c == '>' ==> c !in Comment(name, v))
  {
    KeyChars(name);
    var rest := "!--" + (" " + (Key(name) + (v + "--")));
    assert Comment(name, v) == "<" + rest && Comment(name, v)[1..] == rest;
  }

  lemma CommentMatches(name: Name, v: string, tail: string, n: Name)
    requires v != [] && '>' !in v
    ensures var m := Match(Comment(name, v) + ">" + tail, n);
            m == match ValueOf(name, v, n) case None => None case Some(x) => Some((x, |Comment(name, v)| + 1))
  {
    var p := Comment(name, v);
    CommentChars(name, v, '>');
    UpToAt(p, '>', tail);
    CommentHolds(name, v, n);
  }

  lemma CommentThenTail(name: Name, v: string, tail: string)
    ensures var s := Comment(name, v) + ">" + tail;
            s != [] && s[|Comment(name, v)| + 1..] == tail && s[1..] == Comment(name, v)[1..] + ">" + tail
  {
  }

  /** A comment that names the marker is read, and then what follows it. */
  lemma ScanNamed(name: Name, v: string, tail: string)
    requires v != [] && '>' !in v && (name == Normalized ==> IsReceipt(Strip(v)))
    ensures Scan(Comment(name, v) + ">" + tail, name) == [Strip(v)] + Scan(tail, name)
  {
    CommentMatches(name, v, tail, name);
    CommentThenTail(name, v, tail);
  }

  /** One that does not is passed by, its opening first. */
  lemma ScanOther(name: Name, v: string, tail: string, n: Name)
    requires v != [] && '>' !in v && ValueOf(name, v, n).None?
    ensures Scan(Comment(name, v) + ">" + tail, n) == Scan(Comment(name, v)[1..] + ">" + tail, n)
  {
    CommentMatches(name, v, tail, n);
    CommentThenTail(name, v, tail);
  }

  lemma ScanPast(name: Name, v: string, tail: string, n: Name)
    requires v != [] && '>' !in v && '<' !in v && ValueOf(name, v, n).None?
    ensures Scan(Comment(name, v) + ">" + tail, n) == Scan(tail, n)
  {
    ScanOther(name, v, tail, n);
    CommentChars(name, v, '<');
    ScanBehind(Comment(name, v)[1..] + ">", tail, n);
  }

  // ----- a comment opened inside another

  lemma CommentFlat(name: Name, v: string)
    ensures Comment(name, v) == OPEN + (" " + Key(name)) + v + "--"
  {
  }

  /** A comment cut before its end. */
  function Opened(name: Name, v: string): string {
    OPEN + (" " + (Key(name) + v))
  }

  lemma OpenedIsComment(name: Name, v: string)
    ensures Opened(name, v) + "--" == Comment(name, v)
  {
    CommentFlat(name, v);
  }

  lemma SkipOpening(o: string, k: string, f: string, q: string, d: string, g: string, t: string)
    requires o != []
    ensures (o + k + (f + q) + d)[1..] + g + t == o[1..] + k + f + (q + d + g + t)
  {
    assert (o + k + (f + q) + d)[1..] == o[1..] + k + (f + q) + d;
  }

  lemma InnerComment(name: Name, front: string, inner: Name, v: string, tail: string)
    ensures Comment(name, front + Opened(inner, v))[1..] + ">" + tail
         == OPEN[1..] + (" " + Key(name)) + front + (Comment(inner, v) + ">" + tail)
  {
    CommentFlat(name, front + Opened(inner, v));
    OpenedIsComment(inner, v);
    SkipOpening(OPEN, " " + Key(name), front, Opened(inner, v), "--", ">", tail);
  }

  /** A pattern that passes by the outer comment goes on inside it. */
  lemma ScanInside(name: Name, front: string, inner: Name, v: string, tail: string, n: Name)
    requires '<' !in front && '>' !in front && '>' !in v && n != name
    ensures Scan(Comment(name, front + Opened(inner, v)) + ">" + tail, n) == Scan(Comment(inner, v) + ">" + tail, n)
  {
    var x := OPEN[1..] + (" " + Key(name)) + front;
    KeyChars(name);
    KeyChars(inner);
    assert '<' !in OPEN[1..] && '>' !in OPEN;
    ScanOther(name, front + Opened(inner, v), tail, n);
    InnerComment(name, front, inner, v, tail);
    ScanBehind(x, Comment(inner, v) + ">" + tail, n);
  }

  // ----- lines that are read back as written

  predicate Plain(m: Mark) {
    '<' !in m.value && '>' !in m.value && Strip(m.value) == m.value && (m.name == Normalized ==> IsReceipt(m.value))
  }

  ghost predicate AllPlain(header: seq<Mark>) {
    forall k :: 0 <= k < |header| ==> Plain(header[k])
  }

  /** Blanks around a text are stripped. */
  lemma StripPadded(s: string)
    ensures Strip(" " + s + " ") == Strip(s)
  {
    StripLeadingSpace(s + " ");
    assert [' '] + (s + " ") == " " + s + " ";
    StripTrailingSpace(s);
  }

  lemma {:induction false} StripTrailingSpace(s: string)
    ensures Strip(s + " ") == Strip(s)
  {
    if s == [] {
    } else if IsSpace(s[0]) {
      assert (s + " ")[1..] == s[1..] + " ";
      StripTrailingSpace(s[1..]);
    } else {
      assert StripLeft(s + " ") == s + " " && (s + " ")[..|s|] == s;
    }
  }

  lemma LineIsRead(m: Mark, n: Name)
    requires Plain(m)
    ensures Scan(Line(m), n) == Valued(m, n)
  {
    var v := " " + m.value + " ";
    StripPadded(m.value);
    ScanNothing("\n", n);
    if n == m.name { ScanNamed(m.name, v, "\n"); } else { ScanPast(m.name, v, "\n", n); }
  }

  /** Plain lines are read back as they were written. */
  lemma {:induction false} LinesAreRead(header: seq<Mark>, n: Name)
    requires AllPlain(header)
    ensures Scan(Lines(header), n) == Values(header, n)
  {
    if header == [] {
    } else {
      assert Plain(header[0]);
      LineIsRead(header[0], n);
      LineIsClosed(header[0]);
      ScanConcat(Line(header[0]), Lines(header[1..]), n);
      LinesAreRead(header[1..], n);
    }
  }

  // ----- the body a repair writes

  /** intake_body: the header lines, a blank line and the original text. */
  function IntakeText(header: seq<Mark>, text: string): (r: string)
    ensures |r| >= |text| && r[|r| - |text|..] == text
  {
    Lines(header) + (if header == [] then "" else "\n") + text
  }

  /** A body as its text reads. */
  function Authored(text: string, citesProse: bool, declarations: seq<Dependencies.Declaration>): Original {
    Original(MarksIn(text), citesProse, declarations, text)
  }

  ghost predicate IsBody(original: Original) {
    original == Authored(original.text, original.citesProse, original.declarations)
  }

  /** The body after the header is written above it. */
  function Written(original: Original, header: seq<Mark>): Original {
    Authored(IntakeText(header, original.text), original.citesProse, original.declarations)
  }

  /** The lines and the original are read each by itself, whatever they hold. */
  lemma WrittenReads(original: Original, header: seq<Mark>, n: Name)
    requires IsBody(original)
    ensures Values(Written(original, header).marks, n) == Scan(Lines(header), n) + Values(original.marks, n)
  {
    var gap := if header == [] then "" else "\n";
    MarksAreScanned(IntakeText(header, original.text), n);
    MarksAreScanned(original.text, n);
    LinesAreClosed(header);
    Reassociate(Lines(header), gap, original.text);
    ScanConcat(Lines(header), gap + original.text, n);
    ScanBehind(gap, original.text, n);
  }

  lemma ReadAlike(a: seq<Mark>, b: seq<Mark>)
    requires SameBeyond(a, b, {})
    ensures Read(a) == Read(b)
  {
    HeadBeyond(a, b, {});
    RestBeyond(a, b, {});
  }

  lemma WrittenPlain(original: Original, header: seq<Mark>)
    requires IsBody(original) && AllPlain(header)
    ensures SameBeyond(Written(original, header).marks, header + original.marks, {})
    ensures Read(Written(original, header).marks) == Read(header + original.marks)
  {
    forall n ensures Values(Written(original, header).marks, n) == Values(header + original.marks, n) {
      WrittenReads(original, header, n);
      LinesAreRead(header, n);
      ValuesConcat(header, original.marks, n);
    }
    ReadAlike(Written(original, header).marks, header + original.marks);
  }

  // ----- the lines the repair writes are plain

  predicate IsClean(s: string) {
    '<' !in s && '>' !in s && Strip(s) == s
  }

  /** Subject characters, a colon or blanks inside. */
  ghost predicate IsWording(s: string) {
    forall k :: 0 <= k < |s| ==> Dependencies.IsSubjectChar(s[k]) || s[k] == ':' || s[k] == ' '
  }

  lemma WordingIsClean(s: string)
    requires IsWording(s) && s != [] && s[0] != ' ' && s[|s| - 1] != ' '
    ensures IsClean(s)
  {
    StripNothing(s);
  }

  lemma SubjectCharsAreClean(s: string)
    requires forall k :: 0 <= k < |s| ==> Dependencies.IsSubjectChar(s[k])
    ensures IsClean(s)
  {
    StripNothing(s);
  }

  lemma SubjectIsClean(subject: string)
    requires Dependencies.IsSubject(subject)
    ensures IsClean(subject) && IsClean(Dependencies.RepoOf(subject))
  {
    var parts := Split(subject, '#');
    Dependencies.SubjectChars(subject);
    SubjectCharsAreClean(subject);
    JoinSplit(subject, '#');
    assert parts == [parts[0], parts[1]] && parts[1..] == [parts[1]];
    assert subject == parts[0] + ['#'] + parts[1];
    forall k | 0 <= k < |parts[0]| ensures Dependencies.IsSubjectChar(parts[0][k]) { assert subject[k] == parts[0][k]; }
    SubjectCharsAreClean(parts[0]);
  }

  lemma RenderedIsClean(tokens: seq<string>, subject: string)
    requires Dependencies.Own(tokens, subject)
    ensures IsClean(Dependencies.Rendered(tokens))
  {
    Dependencies.RenderedIsTight(tokens, subject);
    JoinHas(tokens, ", ", '>');
    JoinHas(tokens, ", ", '<');
    forall k | 0 <= k < |tokens| ensures '<' !in tokens[k] && '>' !in tokens[k] { SubjectIsClean(tokens[k]); }
  }

  lemma RoleIsClean()
    ensures IsClean(ROLE)
  {
    assert IsWording(ROLE);
    WordingIsClean(ROLE);
  }

  lemma BlockedIsClean()
    ensures IsClean("blocked")
  {
    assert IsWording("blocked");
    WordingIsClean("blocked");
  }

  lemma PlaceholderIsClean()
    ensures IsClean(Placeholder().value)
  {
    assert IsWording(OWNER);
    assert IsWording(PENDING);
    WordingIsClean(OWNER + ":" + PENDING);
  }

  lemma DigestIsPlain(digest: string)
    requires IsHexDigest(digest)
    ensures Plain(Mark(Normalized, digest))
  {
    StripNothing(digest);
  }

  lemma CureOfMissing(name: Name, subject: string)
    requires Dependencies.IsSubject(subject) && Cure(Missing(name), subject).Some?
    ensures Plain(Cure(Missing(name), subject).value.0)
  {
    SubjectIsClean(subject);
    RoleIsClean();
    BlockedIsClean();
  }

  lemma CureIsPlain(m: Mark, original: Original, subject: string)
    requires Dependencies.IsSubject(subject) && IsCure(m, original, subject)
    ensures Plain(m)
  {
    if m == Placeholder() {
      PlaceholderIsClean();
    } else {
      assert Cure(Missing(m.name), subject).value.0 == m;
      CureOfMissing(m.name, subject);
    }
  }

  /** A header of cures is read back as it was written. */
  lemma CuresArePlain(header: seq<Mark>, original: Original, subject: string)
    requires Dependencies.IsSubject(subject) && CureHeader(header, original, subject)
    ensures AllPlain(header)
  {
    forall k | 0 <= k < |header| ensures Plain(header[k]) {
      assert IsCure(header[k], original, subject);
      CureIsPlain(header[k], original, subject);
    }
  }

  // ----- the parser on a written body

  /** The parser's first diagnostic on a body as it stands. */
  function Diagnosis(rules: Rules, body: Original, subject: string): Option<Defect> {
    Parse(rules, Read(body.marks), body.citesProse, subject)
  }

  lemma WrittenDiagnosis(rules: Rules, original: Original, header: seq<Mark>, subject: string)
    requires IsBody(original) && AllPlain(header)
    ensures Diagnosis(rules, Written(original, header), subject) == DefectOf(rules, header, original, subject)
  {
    WrittenPlain(original, header);
  }
}
