/** The dependency-prose pattern `depend|predecessor|blocked by|waiting|#[0-9]` (issue_contract.py:33). */
module Prose {
  import opened Text

  /** A match begins here. */
  predicate WaitsHere(s: string) {
    || FoldedPrefix("depend", s) || FoldedPrefix("predecessor", s)
    || FoldedPrefix("blocked by", s) || FoldedPrefix("waiting", s)
    || (|s| > 1 && s[0] == '#' && IsDigit(s[1]))
  }

  /** The search finds a match. */
  predicate Waits(s: string) {
    s != [] && (WaitsHere(s) || Waits(s[1..]))
  }

  lemma {:induction false} WaitsExact(s: string)
    ensures Waits(s) <==> exists k :: 0 <= k < |s| && WaitsHere(s[k..])
  {
    if s == [] {
    } else {
      WaitsExact(s[1..]);
      assert s[0..] == s;
      if k :| 0 <= k < |s| && WaitsHere(s[k..]) {
        if k > 0 { assert s[1..][k - 1..] == s[k..]; }
      }
      if k :| 0 <= k < |s| - 1 && WaitsHere(s[1..][k..]) { assert s[k + 1..] == s[1..][k..]; }
    }
  }

  lemma HereExtends(s: string, b: string)
    requires WaitsHere(s)
    ensures WaitsHere(s + b)
  {
  }

  /** A match in a part is a match in the whole. */
  lemma {:induction false} WaitsThen(s: string, b: string)
    requires Waits(s)
    ensures Waits(s + b)
  {
    assert s + b != [] && (s + b)[1..] == s[1..] + b;
    if WaitsHere(s) { HereExtends(s, b); } else { WaitsThen(s[1..], b); }
  }

  lemma {:induction false} WaitsAfter(a: string, s: string)
    requires Waits(s)
    ensures Waits(a + s)
  {
    if a == [] {
      assert a + s == s;
    } else {
      assert (a + s)[1..] == a[1..] + s;
      WaitsAfter(a[1..], s);
    }
  }

  predicate Begins(c: char) {
    Fold(c) == 'd' || Fold(c) == 'p' || Fold(c) == 'b' || Fold(c) == 'w' || c == '#'
  }

  lemma HereBegins(s: string)
    requires WaitsHere(s)
    ensures s != [] && Begins(s[0])
  {
  }

  /** No match begins in a part without the first letter of one. */
  lemma {:induction false} WaitsBehind(head: string, s: string)
    requires Waits(head + s) && forall k :: 0 <= k < |head| ==> !Begins(head[k])
    ensures Waits(s)
  {
    if head == [] {
      assert head + s == s;
    } else {
      assert (head + s)[1..] == head[1..] + s && (head + s)[0] == head[0];
      if WaitsHere(head + s) { HereBegins(head + s); }
      WaitsBehind(head[1..], s);
    }
  }

  lemma StripIsPart(s: string) returns (a: string, b: string)
    ensures s == a + Strip(s) + b
  {
    a := StripLeftIsPart(s);
    b := StripRightIsPart(StripLeft(s));
  }

  lemma {:induction false} StripLeftIsPart(s: string) returns (a: string)
    ensures s == a + StripLeft(s)
  {
    if s != [] && IsSpace(s[0]) {
      var rest := StripLeftIsPart(s[1..]);
      a := [s[0]] + rest;
    } else {
      a := [];
    }
  }

  lemma StripRightIsPart(s: string) returns (b: string)
    ensures s == StripRight(s) + b
  {
    StripRightEnds(s);
    b := s[|StripRight(s)|..];
  }

  lemma WaitsStripped(s: string)
    requires Waits(Strip(s))
    ensures Waits(s)
  {
    var a, b := StripIsPart(s);
    WaitsAfter(a, Strip(s));
    WaitsThen(a + Strip(s), b);
  }

  // ----- texts without a match

  /** The letter is nowhere in the text, in any case. */
  ghost predicate Lacks(s: string, c: char) {
    forall k :: 0 <= k < |s| ==> Fold(s[k]) != c
  }

  lemma LackedLetter(word: string, s: string, k: nat, c: char)
    requires Lacks(s, c) && c in word && k <= |s|
    ensures !FoldedPrefix(word, s[k..])
  {
    var i :| 0 <= i < |word| && word[i] == c;
    if k + i < |s| { assert Fold(s[k + i]) != c && s[k..][i] == s[k + i]; }
  }

  /** No number sign stands before a digit. */
  ghost predicate Unnumbered(s: string) {
    forall k :: 0 <= k < |s| - 1 && s[k] == '#' ==> !IsDigit(s[k + 1])
  }

  /** A text that lacks a letter of every word, and issue numbers, has no match. */
  lemma Unmatched(s: string, a: char, b: char, c: char, d: char)
    requires a in "depend" && b in "predecessor" && c in "blocked by" && d in "waiting"
    requires Lacks(s, a) && Lacks(s, b) && Lacks(s, c) && Lacks(s, d) && Unnumbered(s)
    ensures !Waits(s)
  {
    WaitsExact(s);
    forall k | 0 <= k < |s| ensures !WaitsHere(s[k..]) {
      LackedLetter("depend", s, k, a);
      LackedLetter("predecessor", s, k, b);
      LackedLetter("blocked by", s, k, c);
      LackedLetter("waiting", s, k, d);
      assert s[k..][0] == s[k] && (k + 1 < |s| ==> s[k..][1] == s[k + 1]);
    }
  }

  predicate IsPyw(c: char) {
    c == 'p' || c == 'P' || c == 'y' || c == 'Y' || c == 'w' || c == 'W' || c == '#'
  }

  ghost predicate WithoutPyw(s: string) {
    forall k :: 0 <= k < |s| ==> !IsPyw(s[k])
  }

  /** A text without these letters has no match. */
  lemma PywUnmatched(s: string)
    requires WithoutPyw(s)
    ensures !Waits(s)
  {
    var depend, predecessor, blocked, waiting := "depend", "predecessor", "blocked by", "waiting";
    assert depend[2] == 'p' && predecessor[0] == 'p' && blocked[9] == 'y' && waiting[0] == 'w';
    Unmatched(s, 'p', 'p', 'y', 'w');
  }

  /** No match runs over this seam. */
  predicate Seam(x: char, y: char) {
    (x == ' ' && Fold(y) != 'b') || x == '|' || x == ';' || (x == '#' && !IsDigit(y))
  }

  lemma SeamHolds(word: string, s: string, i: nat)
    requires word == "depend" || word == "predecessor" || word == "blocked by" || word == "waiting"
    requires 0 < i < |word| && i < |s| && Seam(s[i - 1], s[i])
    ensures !FoldedPrefix(word, s)
  {
    assert word[i - 1] != '|' && word[i - 1] != ';' && word[i - 1] != '#' && (word[i - 1] == ' ' ==> word[i] == 'b');
  }

  lemma UnmatchedJoin(a: string, b: string)
    requires !Waits(a) && !Waits(b) && a != [] && b != [] && Seam(a[|a| - 1], b[0])
    ensures !Waits(a + b)
  {
    WaitsExact(a);
    WaitsExact(b);
    WaitsExact(a + b);
    forall k | 0 <= k < |a + b| ensures !WaitsHere((a + b)[k..]) {
      if k < |a| {
        SeamStops(a, b, k);
      } else {
        assert (a + b)[k..] == b[k - |a|..];
      }
    }
  }

  lemma SeamStops(a: string, b: string, k: nat)
    requires k < |a| && b != [] && Seam(a[|a| - 1], b[0]) && !WaitsHere(a[k..])
    ensures !WaitsHere((a + b)[k..])
  {
    var s, i := (a + b)[k..], |a| - k;
    assert s == a[k..] + b;
    NotAcross("depend", a[k..], b);
    NotAcross("predecessor", a[k..], b);
    NotAcross("blocked by", a[k..], b);
    NotAcross("waiting", a[k..], b);
  }

  lemma NotAcross(word: string, a: string, b: string)
    requires word == "depend" || word == "predecessor" || word == "blocked by" || word == "waiting"
    requires a != [] && b != [] && Seam(a[|a| - 1], b[0]) && !FoldedPrefix(word, a)
    ensures !FoldedPrefix(word, a + b)
  {
    var s := a + b;
    if |a| < |word| {
      SeamHolds(word, s, |a|);
    } else {
      assert s[..|word|] == a[..|word|];
    }
  }
}
