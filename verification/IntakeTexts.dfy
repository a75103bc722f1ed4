/** The texts the intake repair reads and writes: markers, dependency prose and the blocker that names the defects
    (noodles.py:76-98, noodles.py:3386-3450, issue_contract.py:33). */
module IntakeTexts {
  import opened Wrappers
  import opened Text
  import opened Prose
  import opened Intake
  import opened MarkerLines
  import opened NamedBlocker

  // ----- letters and words

  /** A letter is matched by both its cases, and by the four signs that fold into one. */
  lemma FoldExact(c: char, x: char)
    requires 'a' <= x <= 'z'
    ensures Fold(c) == x <==>
              || c == x || c as int + 32 == x as int
              || (x == 'i' && (c == '\U{0130}' || c == '\U{0131}'))
              || (x == 's' && c == '\U{017F}') || (x == 'k' && c == '\U{212A}')
  {
  }

  /** The word stands at place k, whatever its case. */
  ghost predicate Stands(word: string, s: string, k: nat) {
    k + |word| <= |s| && forall i :: 0 <= i < |word| ==> Fold(s[k + i]) == word[i]
  }

  lemma StandsExact(word: string, s: string, k: nat)
    requires k <= |s|
    ensures FoldedPrefix(word, s[k..]) <==> Stands(word, s, k)
  {
  }

  ghost predicate ProseAt(s: string, k: nat) {
    || Stands("depend", s, k) || Stands("predecessor", s, k) || Stands("blocked by", s, k) || Stands("waiting", s, k)
    || (k + 1 < |s| && s[k] == '#' && '0' <= s[k + 1] <= '9')
  }

  /** Dependency prose is one of four words anywhere, in any case, or an issue number. */
  lemma ProseExact(s: string)
    ensures Waits(s) <==> exists k: nat :: k < |s| && ProseAt(s, k)
  {
    WaitsExact(s);
    forall k: nat | k < |s| ensures WaitsHere(s[k..]) <==> ProseAt(s, k) {
      StandsExact("depend", s, k);
      StandsExact("predecessor", s, k);
      StandsExact("blocked by", s, k);
      StandsExact("waiting", s, k);
    }
  }

  /** Stripping takes the spaces at both ends and no more. */
  lemma StripExact(s: string) returns (front: string, back: string)
    ensures s == front + Strip(s) + back
    ensures (forall k :: 0 <= k < |front| ==> IsSpace(front[k])) && forall k :: 0 <= k < |back| ==> IsSpace(back[k])
    ensures Strip(s) != "" ==> !IsSpace(Strip(s)[0]) && !IsSpace(Strip(s)[|Strip(s)| - 1])
  {
    front := StripLeftTakes(s);
    back := StripRightTakes(StripLeft(s));
    StripLeftEnds(s);
    StripRightEnds(StripLeft(s));
  }

  lemma {:induction false} StripRightTakes(s: string) returns (back: string)
    ensures s == StripRight(s) + back && forall k :: 0 <= k < |back| ==> IsSpace(back[k])
  {
    if s != [] && IsSpace(s[|s| - 1]) {
      var rest := StripRightTakes(s[..|s| - 1]);
      back := rest + [s[|s| - 1]];
    } else {
      back := [];
    }
  }

  // ----- markers

  lemma NameTexts()
    ensures MarkerName(Role) == "role" && MarkerName(Target) == "target" && MarkerName(Subject) == "subject"
    ensures MarkerName(State) == "state" && MarkerName(Feature) == "feature" && MarkerName(Component) == "component"
    ensures MarkerName(DependsOn) == "depends-on" && MarkerName(WriteBoundary) == "write-boundary"
    ensures MarkerName(Executor) == "executor" && MarkerName(Runtime) == "runtime" && MarkerName(Evidence) == "evidence"
    ensures MarkerName(Blocker) == "blocker" && MarkerName(Relation) == "relation" && MarkerName(Observer) == "observer"
    ensures MarkerName(CapabilityProbe) == "capability-probe" && MarkerName(Normalized) == "normalized"
  {
  }

  /** The line a marker is written as. */
  lemma LineText(m: Mark)
    ensures Line(m) == "<!-- " + "noodles-" + MarkerName(m.name) + ": " + m.value + " -->" + "\n"
  {
    var n, v := MarkerName(m.name), m.value;
    assert "<!-- " == "<!--" + " " && ": " == ":" + " " && " -->" == " " + "--" + ">";
    Flatten("<!--", " ", "noodles-", n, ":", " ", v, " ", "--", ">", "\n");
  }

  lemma Flatten(a: string, b: string, c: string, d: string, e: string, f: string, g: string, h: string, i: string,
                j: string, k: string)
    ensures a + (b + ((c + d + e) + ((f + g + h) + i))) + j + k == (a + b) + c + d + (e + f) + g + (h + i + j) + k
  {
  }

  /** A comment with this key, in any case and behind any space, and a value before its closing dashes. */
  ghost predicate Holds(p: string, name: Name, v: string, space: string, key: string, u: string) {
    && p == "<!--" + space + key + u + "--" && u != "" && v == Strip(u)
    && (forall k :: 0 <= k < |space| ==> IsSpace(space[k]))
    && |key| == |Key(name)| && (forall k :: 0 <= k < |key| ==> Fold(key[k]) == Key(name)[k])
    && (name == Normalized ==>
          |v| == 64 && forall k :: 0 <= k < 64 ==> '0' <= v[k] <= '9' || 'a' <= v[k] <= 'f' || 'A' <= v[k] <= 'F')
  }

  lemma {:induction false} StripLeftBehind(space: string, s: string)
    requires s != "" && !IsSpace(s[0]) && forall k :: 0 <= k < |space| ==> IsSpace(space[k])
    ensures StripLeft(space + s) == s
  {
    if space == [] {
      assert space + s == s;
    } else {
      assert (space + s)[1..] == space[1..] + s && (space + s)[0] == space[0];
      StripLeftBehind(space[1..], s);
    }
  }

  lemma {:induction false} StripLeftTakes(s: string) returns (space: string)
    ensures s == space + StripLeft(s) && forall k :: 0 <= k < |space| ==> IsSpace(space[k])
  {
    if s != [] && IsSpace(s[0]) {
      var rest := StripLeftTakes(s[1..]);
      space := [s[0]] + rest;
    } else {
      space := [];
    }
  }

  lemma KeyBegins(name: Name, key: string)
    requires |key| == |Key(name)| && forall k :: 0 <= k < |key| ==> Fold(key[k]) == Key(name)[k]
    ensures key != "" && !IsSpace(key[0])
  {
    assert Key(name)[0] == "noodles-"[0] == 'n';
    FoldExact(key[0], 'n');
  }

  lemma ValueIsHeld(name: Name, u: string)
    requires u != "" && (name == Normalized ==> IsReceipt(Strip(u)))
    ensures MarkerLines.Value(u + "--", name) == Some(Strip(u))
  {
    var w := u + "--";
    assert |w| == |u| + 2 && w[..|u|] == u && w[|u|..] == "--";
  }

  lemma HoldsIsHeld(p: string, name: Name, v: string, space: string, key: string, u: string)
    requires Holds(p, name, v, space, key, u)
    ensures Held(p, name) == Some(v)
  {
    KeyBegins(name, key);
    var w := u + "--";
    Level("<!--", space, key, u, "--");
    KeyedIsHeld(p, name, space, key, w);
    ValueIsHeld(name, u);
  }

  lemma KeyedIsHeld(p: string, name: Name, space: string, key: string, w: string)
    requires key != "" && !IsSpace(key[0]) && forall k :: 0 <= k < |space| ==> IsSpace(space[k])
    requires |key| == |Key(name)| && forall k :: 0 <= k < |key| ==> Fold(key[k]) == Key(name)[k]
    requires p == OPEN + (space + (key + w))
    ensures Held(p, name) == MarkerLines.Value(w, name)
  {
    var t := key + w;
    Behind(OPEN, space + t);
    assert t[0] == key[0];
    StripLeftBehind(space, t);
    KeyIsPrefix(name, key, w);
    HeldOf(p, name, t);
  }

  lemma Behind(a: string, b: string)
    ensures a <= a + b && (a + b)[|a|..] == b
  {
  }

  lemma KeyIsPrefix(name: Name, key: string, w: string)
    requires |key| == |Key(name)| && forall k :: 0 <= k < |key| ==> Fold(key[k]) == Key(name)[k]
    ensures FoldedPrefix(Key(name), key + w) && (key + w)[|Key(name)|..] == w
  {
  }

  lemma HeldOf(p: string, name: Name, t: string)
    requires OPEN <= p && StripLeft(p[|OPEN|..]) == t && FoldedPrefix(Key(name), t)
    ensures Held(p, name) == MarkerLines.Value(t[|Key(name)|..], name)
  {
  }

  lemma HeldHolds(p: string, name: Name)
    requires Held(p, name).Some?
    ensures exists space, key, u :: Holds(p, name, Held(p, name).value, space, key, u)
  {
    var rest := p[|OPEN|..];
    var space := StripLeftTakes(rest);
    var t, n := StripLeft(rest), |Key(name)|;
    var key, w := t[..n], t[n..];
    var u := EndCut(w, name);
    assert p == OPEN + rest && t == key + w;
    PartsHold(p, name, space, key, u, rest, t, w);
  }

  /** The value found, cut from its closing dashes. */
  lemma EndCut(w: string, name: Name) returns (u: string)
    requires MarkerLines.Value(w, name).Some?
    ensures w == u + "--" && u != "" && MarkerLines.Value(w, name).value == Strip(u)
    ensures name == Normalized ==> IsReceipt(Strip(u))
  {
    u := w[..|w| - 2];
  }

  lemma PartsHold(p: string, name: Name, space: string, key: string, u: string, rest: string, t: string, w: string)
    requires p == OPEN + rest && rest == space + t && t == key + w && w == u + "--"
    requires Held(p, name) == Some(Strip(u))
    requires u != "" && (forall k :: 0 <= k < |space| ==> IsSpace(space[k])) && |key| == |Key(name)|
    requires forall k :: 0 <= k < |key| ==> Fold(key[k]) == Key(name)[k]
    requires name == Normalized ==> IsReceipt(Strip(u))
    ensures exists space, key, u :: Holds(p, name, Held(p, name).value, space, key, u)
  {
    Level("<!--", space, key, u, "--");
    assert Holds(p, name, Held(p, name).value, space, key, u);
  }

  lemma Level(a: string, b: string, c: string, d: string, e: string)
    ensures a + (b + (c + (d + e))) == a + b + c + d + e
  {
  }

  /** What the marker pattern matches, and the value it holds. */
  lemma HeldExact(p: string, name: Name, v: string)
    ensures Held(p, name) == Some(v) <==> exists space, key, u :: Holds(p, name, v, space, key, u)
  {
    if Held(p, name) == Some(v) { HeldHolds(p, name); }
    if space, key, u :| Holds(p, name, v, space, key, u) { HoldsIsHeld(p, name, v, space, key, u); }
  }

  /** A match holds one `>`, at its end. */
  lemma MatchExact(s: string, name: Name, v: string, n: nat)
    ensures Match(s, name) == Some((v, n)) <==>
              0 < n <= |s| && s[n - 1] == '>' && '>' !in s[..n - 1] && Held(s[..n - 1], name) == Some(v)
  {
    if 0 < n <= |s| && s[n - 1] == '>' && '>' !in s[..n - 1] {
      assert s == s[..n - 1] + ['>'] + s[n..];
      UpToAt(s[..n - 1], '>', s[n..]);
    }
  }

  function Matcher(name: Name): string -> Option<(string, nat)> {
    (t: string) => Match(t, name)
  }

  /** What matches at each place of a text, and the length of the match. */
  function Hits(matcher: string -> Option<(string, nat)>, s: string): nat -> Option<(string, nat)> {
    (i: nat) => if i < |s| then matcher(s[i..]) else None
  }

  /** Where a value is found: its match runs from start to before end. */
  datatype Place = Place(value: string, start: nat, end: nat)

  /** From a place on, each match is the leftmost behind the one before it, and behind the last there is none. */
  ghost predicate Found(hits: nat -> Option<(string, nat)>, from: nat, places: seq<Place>)
    decreases |places|
  {
    if places == [] then NoneUpTo(hits, from, None)
    else
      var p := places[0];
      && from <= p.start < p.end && hits(p.start) == Some((p.value, p.end - p.start))
      && NoneUpTo(hits, from, Some(p.start)) && Found(hits, p.end, places[1..])
  }

  ghost predicate NoneUpTo(hits: nat -> Option<(string, nat)>, from: nat, to: Option<nat>) {
    forall i: nat :: from <= i && (to.Some? ==> i < to.value) ==> hits(i).None?
  }

  function ValuesAt(places: seq<Place>): (r: seq<string>)
    ensures |r| == |places| && forall k :: 0 <= k < |r| ==> r[k] == places[k].value
  {
    seq(|places|, k requires 0 <= k < |places| => places[k].value)
  }

  function Later(places: seq<Place>, n: nat): (r: seq<Place>)
    ensures |r| == |places|
    ensures forall k :: 0 <= k < |r| ==> r[k] == Place(places[k].value, places[k].start + n, places[k].end + n)
  {
    seq(|places|, k requires 0 <= k < |places| => Place(places[k].value, places[k].start + n, places[k].end + n))
  }

  lemma LaterCons(places: seq<Place>, n: nat)
    requires places != []
    ensures Later(places, n) == [Later(places, n)[0]] + Later(places[1..], n)
  {
  }

  ghost predicate Delays(hits: nat -> Option<(string, nat)>, later: nat -> Option<(string, nat)>, n: nat) {
    forall i: nat :: later(i) == hits(i + n)
  }

  lemma NoneLater(hits: nat -> Option<(string, nat)>, later: nat -> Option<(string, nat)>, n: nat, from: nat,
                  to: Option<nat>)
    requires Delays(hits, later, n) && NoneUpTo(later, from, to)
    ensures NoneUpTo(hits, from + n, if to.Some? then Some(to.value + n) else None)
  {
    forall i: nat | from + n <= i && (to.Some? ==> i < to.value + n) ensures hits(i).None? {
      var j: nat := i - n;
      assert later(j).None? && j + n == i;
    }
  }

  lemma FoundNext(hits: nat -> Option<(string, nat)>, from: nat, p: Place, rest: seq<Place>)
    requires from <= p.start < p.end && hits(p.start) == Some((p.value, p.end - p.start))
    requires NoneUpTo(hits, from, Some(p.start)) && Found(hits, p.end, rest)
    ensures Found(hits, from, [p] + rest)
  {
    assert ([p] + rest)[1..] == rest;
  }

  lemma {:induction false} FoundLater(
    hits: nat -> Option<(string, nat)>, later: nat -> Option<(string, nat)>, n: nat, from: nat, places: seq<Place>)
    requires Delays(hits, later, n) && Found(later, from, places)
    ensures Found(hits, from + n, Later(places, n))
    decreases |places|
  {
    if places == [] {
      NoneLater(hits, later, n, from, None);
    } else {
      var p := places[0];
      NoneLater(hits, later, n, from, Some(p.start));
      FoundLater(hits, later, n, p.end, places[1..]);
      LaterCons(places, n);
      FoundNext(hits, from + n, Later(places, n)[0], Later(places[1..], n));
    }
  }

  lemma HitsLater(matcher: string -> Option<(string, nat)>, s: string, n: nat)
    requires n <= |s|
    ensures Delays(Hits(matcher, s), Hits(matcher, s[n..]), n)
  {
    forall i: nat ensures Hits(matcher, s[n..])(i) == Hits(matcher, s)(i + n) {
      if i < |s| - n { assert s[n..][i..] == s[i + n..]; }
    }
  }

  /** One match in front of those found behind it. */
  lemma FoundFirst(matcher: string -> Option<(string, nat)>, s: string, v: string, n: nat, rest: seq<Place>)
    requires 0 < n <= |s| && matcher(s) == Some((v, n)) && Found(Hits(matcher, s[n..]), 0, rest)
    ensures Found(Hits(matcher, s), 0, [Place(v, 0, n)] + Later(rest, n))
    ensures ValuesAt([Place(v, 0, n)] + Later(rest, n)) == [v] + ValuesAt(rest)
  {
    HitsLater(matcher, s, n);
    FoundLater(Hits(matcher, s), Hits(matcher, s[n..]), n, 0, rest);
    assert s[0..] == s && Hits(matcher, s)(0) == Some((v, n));
    FoundNext(Hits(matcher, s), 0, Place(v, 0, n), Later(rest, n));
  }

  lemma FoundBehind(matcher: string -> Option<(string, nat)>, s: string, rest: seq<Place>)
    requires s != [] && matcher(s).None? && Found(Hits(matcher, s[1..]), 0, rest)
    ensures Found(Hits(matcher, s), 0, Later(rest, 1)) && ValuesAt(Later(rest, 1)) == ValuesAt(rest)
  {
    var hits := Hits(matcher, s);
    HitsLater(matcher, s, 1);
    FoundLater(hits, Hits(matcher, s[1..]), 1, 0, rest);
    assert s[0..] == s && hits(0).None?;
    NoneBefore(hits, Later(rest, 1));
  }

  lemma NoneBefore(hits: nat -> Option<(string, nat)>, places: seq<Place>)
    requires hits(0).None? && Found(hits, 1, places)
    ensures Found(hits, 0, places)
  {
  }

  /** The values found are those of the leftmost matches, each behind the one before. */
  lemma {:induction false} ScanExact(s: string, name: Name) returns (places: seq<Place>)
    ensures Found(Hits(Matcher(name), s), 0, places) && ValuesAt(places) == Scan(s, name)
    decreases |s|
  {
    if s == [] {
      places := [];
    } else {
      var m := Match(s, name);
      assert Matcher(name)(s) == m;
      if m.Some? {
        var rest := ScanExact(s[m.value.1..], name);
        FoundFirst(Matcher(name), s, m.value.0, m.value.1, rest);
        places := [Place(m.value.0, 0, m.value.1)] + Later(rest, m.value.1);
      } else {
        var rest := ScanExact(s[1..], name);
        FoundBehind(Matcher(name), s, rest);
        places := Later(rest, 1);
      }
    }
  }

  // ----- the text of a repair

  /** Header lines, a blank line below them, and the original text. */
  lemma BodyText(header: seq<Mark>, text: string)
    ensures header == [] ==> IntakeText(header, text) == text
    ensures header != [] ==> IntakeText(header, text) == Each(header, Line) + "\n" + text
  {
    if header == [] { assert "" + "" + text == text; }
  }

  // ----- the named blocker

  /** The two diagnostics whose words decide a cure. */
  lemma DescriptionTexts(rules: Rules, name: Name)
    ensures Description(rules, Missing(name)) == "missing noodles-" + MarkerName(name) + " marker"
    ensures Description(rules, BlockedRequires) ==
            "noodles-state: blocked requires " + "<!-- noodles-blocker:" + " owner: reason " + "-->"
            + (" naming the " + "exact blocker owner")
  {
    QuotedText();
  }

  lemma QuotedText()
    ensures "noodles-state: blocked requires " + QUOTED_LINE + (CLOSE + REQUIRES_REST) ==
            "noodles-state: blocked requires " + "<!-- noodles-blocker:" + " owner: reason " + "-->"
            + (" naming the " + "exact blocker owner")
  {
    Requote("noodles-state: blocked requires ", " owner: reason ", " naming the " + "exact blocker owner");
  }

  lemma Requote(a: string, v: string, z: string)
    ensures a + Opened(Blocker, v) + (CLOSE + z) == a + "<!-- noodles-blocker:" + v + "-->" + z
  {
    assert Opened(Blocker, v) == "<!-- noodles-blocker:" + v;
  }

  /** The reason a blocked repair names: its defects, unless they read as dependency prose. */
  lemma ReasonExact(rules: Rules, defects: seq<Defect>)
    ensures var said := Join(Described(rules, defects), "; ");
            && (|said| > 0 && !Waits(said) ==> Reason(rules, defects) == said)
            && (|said| > 0 && Waits(said) ==>
                  Reason(rules, defects) == "contract intake defects are " + "named in the intake comment")
            && (|said| == 0 ==> Reason(rules, defects) == "contract intake " + "normalization")
  {
    if |Join(Described(rules, defects), "; ")| == 0 { UnnamedIsCalm(); }
  }

  lemma UnnamedIsCalm()
    ensures !Waits("contract intake " + "normalization")
  {
    var a, b := "contract intake ", "normalization";
    assert WithoutPyw(a);
    assert WithoutPyw(b);
    PywUnmatched(a + b);
  }

  // ----- characters

  /** Python's whitespace, character by character. */
  lemma SpaceExact(c: char)
    ensures IsSpace(c) <==>
              || c in {'\t', '\n', '\U{000B}', '\U{000C}', '\r', ' ', '\U{0085}', '\U{00A0}', '\U{1680}', '\U{3000}'}
              || c in {'\U{001C}', '\U{001D}', '\U{001E}', '\U{001F}'}
              || c in {'\U{2028}', '\U{2029}', '\U{202F}', '\U{205F}'}
              || '\U{2000}' <= c <= '\U{200A}'
  {
  }
}
