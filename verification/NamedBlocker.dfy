/** The blocker line that names the defects of a repair, and what the marker patterns read in it
    (noodles.py:3376-3379, noodles.py:3443-3450, issue_contract.py:881-897). */
module NamedBlocker {
  import opened Text
  import opened Prose
  import opened Intake
  import opened MarkerLines

  // ----- naming the defects

  const UNNAMED := "contract intake " + "normalization"

  /** The diagnostic that asks for a blocker: the line it quotes, up to its comment end, and the rest. */
  const REQUIRES := "noodles-state: blocked requires "

  const QUOTED_LINE := Opened(Blocker, " owner: reason ")

  const REQUIRES_REST := " naming the " + "exact blocker owner"

  function Description(rules: Rules, d: Defect): string {
    match d
    case Missing(name) => "missing noodles-" + MarkerName(name) + " marker"
    case BlockedRequires => REQUIRES + QUOTED_LINE + (CLOSE + REQUIRES_REST)
    case _ => rules.describe(d)
  }

  function Described(rules: Rules, defects: seq<Defect>): (r: seq<string>)
    ensures |r| == |defects|
  {
    seq(|defects|, k requires 0 <= k < |defects| => Description(rules, defects[k]))
  }

  function Joined(rules: Rules, defects: seq<Defect>): string {
    Join(Described(rules, defects), "; ")
  }

  function Reason(rules: Rules, defects: seq<Defect>): string {
    var reason := if Joined(rules, defects) == [] then UNNAMED else Joined(rules, defects);
    if Waits(reason) then IN_COMMENT else reason
  }

  function Named(reason: string): string {
    OWNER + ": " + reason
  }

  /** The header with the placeholder blocker naming the defects. */
  function Resolve(rules: Rules, defects: seq<Defect>, header: seq<Mark>): (r: seq<Mark>)
    ensures |r| == |header| && forall k :: 0 <= k < |r| ==> r[k].name == header[k].name
    ensures forall k :: 0 <= k < |r| && header[k] != Placeholder() ==> r[k] == header[k]
  {
    seq(|header|, k requires 0 <= k < |header| =>
      if header[k] == Placeholder() then Mark(Blocker, Named(Reason(rules, defects))) else header[k])
  }

  /** The defects that come with a placeholder: missing markers, the demand for a blocker, and at most one more. */
  ghost predicate AsksAt(defects: seq<Defect>, j: nat) {
    && j < |defects| <= j + 2 && defects[j] == BlockedRequires
    && forall i :: 0 <= i < j ==> defects[i].Missing?
  }

  /** The markers a diagnostic quotes behind the first comment end of the blocker line that names it. */
  function Quoted(rules: Rules, defects: seq<Defect>, n: Name): seq<string> {
    if BlockedRequires !in defects || defects[|defects| - 1] == BlockedRequires || Waits(Joined(rules, defects)) then []
    else Scan(Description(rules, defects[|defects| - 1]) + CLOSING, n)
  }

  const CLOSING := " " + (CLOSE + "\n")

  // ----- the part before the first comment end

  ghost predicate Said(s: string) {
    exists k :: 0 <= k < |s| && !IsSpace(s[k])
  }

  lemma {:induction false} StripRightKeeps(front: string, s: string)
    requires Said(s)
    ensures StripRight(front + s) == front + StripRight(s) && Said(StripRight(s))
    decreases |s|
  {
    var all := front + s;
    assert all[|all| - 1] == s[|s| - 1];
    if !IsSpace(s[|s| - 1]) {
    } else {
      var k :| 0 <= k < |s| && !IsSpace(s[k]);
      assert s[..|s| - 1][k] == s[k];
      StripRightKeeps(front, s[..|s| - 1]);
      assert all[..|all| - 1] == front + s[..|s| - 1];
    }
  }

  function After(parts: seq<string>, j: nat, sep: string): string
    requires j < |parts|
  {
    if j + 1 == |parts| then "" else sep + Join(parts[j + 1..], sep)
  }

  /** Joined parts, cut inside part j. */
  lemma {:induction false} JoinCut(parts: seq<string>, j: nat, head: string, tail: string, sep: string)
    requires j < |parts| && parts[j] == head + tail
    ensures Join(parts, sep) == Join(parts[..j] + [head], sep) + (tail + After(parts, j, sep))
    decreases j
  {
    if j == 0 {
      assert parts[..0] + [head] == [head];
      assert Join(parts, sep) == head + (tail + After(parts, 0, sep));
    } else {
      JoinCut(parts[1..], j - 1, head, tail, sep);
      var cut := parts[..j] + [head];
      assert cut[1..] == parts[1..][..j - 1] + [head] && cut[0] == parts[0];
      assert parts[1..][j..] == parts[j + 1..];
      JoinCutNext(parts[0] + sep, Join(cut[1..], sep), tail + After(parts, j, sep));
    }
  }

  lemma JoinCutNext(a: string, b: string, c: string)
    ensures a + (b + c) == a + b + c
  {
  }

  ghost predicate NoBracket(s: string) {
    forall k :: 0 <= k < |s| ==> s[k] != '<' && s[k] != '>'
  }

  lemma MissingIsPlain(rules: Rules, name: Name)
    ensures NoBracket(Description(rules, Missing(name)))
  {
    var a, b := "missing noodles-", " marker";
    NamesAreSmall(name);
    assert NoBracket(a);
    assert NoBracket(b);
    ThreePlain(a, MarkerName(name), b);
  }

  lemma ThreePlain(a: string, b: string, c: string)
    requires NoBracket(a) && IsSmall(b) && NoBracket(c)
    ensures NoBracket(a + b + c)
  {
  }

  /** The missing markers named before the demand for a blocker, and the demand up to the line it quotes. */
  function Opening(rules: Rules, defects: seq<Defect>, j: nat): string
    requires j < |defects|
  {
    Join(Described(rules, defects)[..j] + [REQUIRES], "; ")
  }

  lemma RequiresIsPlain()
    ensures NoBracket(REQUIRES) && 'n' in REQUIRES
  {
    assert REQUIRES[0] == 'n';
  }

  lemma JoinIsPlain(parts: seq<string>)
    requires forall k :: 0 <= k < |parts| ==> NoBracket(parts[k])
    ensures NoBracket(Join(parts, "; "))
  {
    JoinHas(parts, "; ", '<');
    JoinHas(parts, "; ", '>');
    forall k | 0 <= k < |parts| ensures '<' !in parts[k] && '>' !in parts[k] { assert NoBracket(parts[k]); }
  }

  lemma OpeningIsPlain(rules: Rules, defects: seq<Defect>, j: nat)
    requires AsksAt(defects, j)
    ensures NoBracket(Opening(rules, defects, j)) && 'n' in Opening(rules, defects, j)
  {
    var parts := Described(rules, defects)[..j] + [REQUIRES];
    RequiresIsPlain();
    forall k | 0 <= k < |parts| ensures NoBracket(parts[k]) {
      if k < j { MissingIsPlain(rules, defects[k].name); }
    }
    JoinIsPlain(parts);
    JoinHas(parts, "; ", 'n');
    assert 'n' in parts[j];
  }

  /** What follows the demand: the diagnostic that could not be cured, if any. */
  function Rest(rules: Rules, defects: seq<Defect>, j: nat): string
    requires AsksAt(defects, j)
  {
    if |defects| == j + 1 then "" else "; " + Description(rules, defects[j + 1])
  }

  lemma JoinedIsCut(rules: Rules, defects: seq<Defect>, j: nat)
    requires AsksAt(defects, j)
    ensures Joined(rules, defects)
         == Opening(rules, defects, j) + (QUOTED_LINE + (CLOSE + REQUIRES_REST) + Rest(rules, defects, j))
  {
    var parts := Described(rules, defects);
    JoinCutNext(REQUIRES, QUOTED_LINE, CLOSE + REQUIRES_REST);
    JoinCut(parts, j, REQUIRES, QUOTED_LINE + (CLOSE + REQUIRES_REST), "; ");
    if j + 1 < |parts| { assert parts[j + 1..] == [Description(rules, defects[j + 1])]; }
    assert After(parts, j, "; ") == Rest(rules, defects, j);
  }

  /** What the parser reads of the blocker's value, before it strips it. */
  function Seen(rules: Rules, defects: seq<Defect>, j: nat): string
    requires AsksAt(defects, j)
  {
    Named(if Waits(Joined(rules, defects)) then IN_COMMENT else Opening(rules, defects, j) + QUOTED_LINE)
  }

  // ----- the line as the patterns read it

  lemma CutParts(o: string, b: string, f: string, d: string, g: string, r: string, e: string)
    ensures o + (b + (f + ((d + g) + r)) + b) + d + g + e == o + (b + f) + d + g + (r + (b + ((d + g) + e)))
  {
  }

  lemma LineIsCut(name: Name, front: string, rest: string)
    ensures Line(Mark(name, front + (CLOSE + rest))) == Comment(name, " " + front) + ">" + (rest + CLOSING)
  {
    assert CLOSE == "--" + ">";
    CommentFlat(name, " " + (front + (CLOSE + rest)) + " ");
    CommentFlat(name, " " + front);
    CutParts(OPEN + (" " + Key(name)), " ", front, "--", ">", rest, "\n");
  }

  lemma QuotedLineChars()
    ensures '>' !in QUOTED_LINE && NoBracket(" owner: reason ")
    ensures NoBracket(OWNER + ": ") && NoBracket(REQUIRES_REST) && NoBracket("; ") && '<' !in CLOSING
  {
    KeyChars(Blocker);
    assert NoBracket(" owner: reason ");
    assert '>' !in OPEN;
  }

  /** Every pattern but the blocker's passes by the blocker's comment and the line it quotes. */
  lemma OthersPassBy(opening: string, tail: string, n: Name)
    requires NoBracket(opening) && n != Blocker
    ensures Scan(Comment(Blocker, opening + QUOTED_LINE) + ">" + tail, n) == Scan(tail, n)
  {
    QuotedLineChars();
    ScanInside(Blocker, opening, Blocker, " owner: reason ", tail, n);
    ScanPast(Blocker, " owner: reason ", tail, n);
  }

  lemma ScanTail(a: string, rest: string, n: Name)
    requires NoBracket(a)
    ensures Scan(a + rest + CLOSING, n) == Scan(rest + CLOSING, n)
  {
    Reassociate(a, rest, CLOSING);
    ScanBehind(a, rest + CLOSING, n);
  }

  lemma NothingQuoted(rules: Rules, defects: seq<Defect>, n: Name)
    requires defects != [] && defects[|defects| - 1] == BlockedRequires
    ensures Quoted(rules, defects, n) == []
  {
  }

  lemma TailIsScanned(rules: Rules, defects: seq<Defect>, j: nat, n: Name)
    requires AsksAt(defects, j) && (|defects| == j + 2 ==> defects[j + 1] != BlockedRequires)
    requires !Waits(Joined(rules, defects))
    ensures Scan(REQUIRES_REST + Rest(rules, defects, j) + CLOSING, n) == Quoted(rules, defects, n)
  {
    QuotedLineChars();
    ScanTail(REQUIRES_REST, Rest(rules, defects, j), n);
    if |defects| == j + 1 {
      assert "" + CLOSING == CLOSING;
      ScanNothing(CLOSING, n);
      NothingQuoted(rules, defects, n);
    } else {
      ScanTail("; ", Description(rules, defects[j + 1]), n);
      QuotedLast(rules, defects, j, n);
    }
  }

  lemma QuotedLast(rules: Rules, defects: seq<Defect>, j: nat, n: Name)
    requires AsksAt(defects, j) && |defects| == j + 2 && defects[j + 1] != BlockedRequires
    requires !Waits(Joined(rules, defects))
    ensures Quoted(rules, defects, n) == Scan(Description(rules, defects[j + 1]) + CLOSING, n)
  {
    assert defects[j] in defects;
  }

  lemma FourParts(o: string, a: string, q: string, c: string, r: string, t: string)
    ensures o + (a + (q + (c + r) + t)) == o + a + q + (c + (r + t))
  {
  }

  lemma NamedIsCut(rules: Rules, defects: seq<Defect>, j: nat)
    requires AsksAt(defects, j) && !Waits(Joined(rules, defects))
    ensures Named(Reason(rules, defects))
         == Named(Opening(rules, defects, j)) + QUOTED_LINE + (CLOSE + (REQUIRES_REST + Rest(rules, defects, j)))
  {
    var opening, rest := Opening(rules, defects, j), Rest(rules, defects, j);
    JoinedIsCut(rules, defects, j);
    FourParts(OWNER + ": ", opening, QUOTED_LINE, CLOSE, REQUIRES_REST, rest);
    OpeningIsPlain(rules, defects, j);
    assert Joined(rules, defects) != [];
  }

  /** A blocker line cut inside the line it quotes. */
  lemma CutLineIsRead(opening: string, rest: string, n: Name)
    requires NoBracket(opening)
    ensures Scan(Line(Mark(Blocker, opening + QUOTED_LINE + (CLOSE + rest))), n)
         == (if n == Blocker then [Strip(opening + QUOTED_LINE)] else []) + Scan(rest + CLOSING, n)
  {
    var front, tail := opening + QUOTED_LINE, rest + CLOSING;
    LineIsCut(Blocker, front, rest);
    Reassociate(" ", opening, QUOTED_LINE);
    QuotedLineChars();
    if n == Blocker {
      StripLeadingSpace(front);
      ScanNamed(Blocker, " " + front, tail);
    } else {
      OthersPassBy(" " + opening, tail, n);
      assert [] + Scan(tail, n) == Scan(tail, n);
    }
  }

  lemma InCommentIsCalm()
    ensures !Waits(IN_COMMENT)
  {
    var a, b := "contract intake defects are ", "named in the intake comment";
    assert WithoutPyw(a);
    assert WithoutPyw(b);
    PywUnmatched(a + b);
  }

  lemma InCommentIsPlain()
    ensures NoBracket(IN_COMMENT) && NoBracket(Named(IN_COMMENT)) && 'n' in IN_COMMENT
    ensures Strip(Named(IN_COMMENT)) == Named(IN_COMMENT)
  {
    var a, b := "contract intake defects are ", "named in the intake comment";
    assert NoBracket(a) && NoBracket(b) && b[0] == 'n';
    QuotedLineChars();
    assert Named(IN_COMMENT)[0] == 'i' && b[|b| - 1] == 't';
    assert IN_COMMENT == a + b && Named(IN_COMMENT) == OWNER + ": " + a + b;
    StripNothing(Named(IN_COMMENT));
  }

  /** The patterns read one blocker, the part before the line's first comment end, and what the last diagnostic
      quotes. */
  lemma NamedLineIsRead(rules: Rules, defects: seq<Defect>, j: nat, n: Name)
    requires AsksAt(defects, j) && (|defects| == j + 2 ==> defects[j + 1] != BlockedRequires)
    ensures Scan(Line(Mark(Blocker, Named(Reason(rules, defects)))), n)
         == (if n == Blocker then [Strip(Seen(rules, defects, j))] else []) + Quoted(rules, defects, n)
  {
    if Waits(Joined(rules, defects)) {
      InCommentIsPlain();
      LineIsRead(Mark(Blocker, Named(IN_COMMENT)), n);
    } else {
      var opening := Named(Opening(rules, defects, j));
      OpeningIsPlain(rules, defects, j);
      QuotedLineChars();
      NamedIsCut(rules, defects, j);
      CutLineIsRead(opening, REQUIRES_REST + Rest(rules, defects, j), n);
      TailIsScanned(rules, defects, j, n);
      SeenNamed(rules, defects, j);
    }
  }

  lemma SeenNamed(rules: Rules, defects: seq<Defect>, j: nat)
    requires AsksAt(defects, j) && !Waits(Joined(rules, defects))
    ensures Seen(rules, defects, j) == Named(Opening(rules, defects, j)) + QUOTED_LINE
  {
    Reassociate(OWNER + ": ", Opening(rules, defects, j), QUOTED_LINE);
  }

  // ----- the blocker read is accepted

  lemma OwnerAndSaidFit(reason: string)
    requires Said(reason)
    ensures NamesOwner(Strip(Named(reason)))
  {
    var value, tail := Named(reason), " " + reason;
    assert Said(tail) by {
      var k :| 0 <= k < |reason| && !IsSpace(reason[k]);
      assert tail[k + 1] == reason[k];
    }
    assert value == OWNER + ":" + tail && value[0] == OWNER[0];
    StripRightKeeps(OWNER + ":", tail);
    assert Strip(value) == OWNER + ":" + StripRight(tail);
    var k :| 0 <= k < |StripRight(tail)| && !IsSpace(StripRight(tail)[k]);
    NotBlank(StripRight(tail), k);
    NotBlank(OWNER, 0);
    assert OwnerAndReason(Strip(value), OWNER, StripRight(tail));
  }

  lemma OwnerBeginsNothing()
    ensures BeginsNothing(OWNER + ": ")
  {
  }

  /** A reason without dependency prose stays so behind the owner, and stripped. */
  lemma NamedIsCalm(reason: string)
    requires !Waits(reason)
    ensures !Waits(Strip(Named(reason)))
  {
    if Waits(Strip(Named(reason))) {
      WaitsStripped(Named(reason));
      OwnerBeginsNothing();
      WaitsBehind(OWNER + ": ", reason);
    }
  }

  lemma SaidAt(s: string, c: char)
    requires c in s && !IsSpace(c)
    ensures Said(s)
  {
  }

  /** Whatever the defects are, the blocker that names them, as far as it is read, is an owner and a reason free of
      dependency prose, so by itself it never fails the parser's blocker check. */
  lemma NamedBlockerFits(rules: Rules, defects: seq<Defect>, j: nat)
    requires AsksAt(defects, j)
    ensures BlockerFits(rules, Strip(Seen(rules, defects, j)), "blocked")
  {
    var opening := Opening(rules, defects, j);
    if Waits(Joined(rules, defects)) {
      InCommentIsPlain();
      SaidAt(IN_COMMENT, 'n');
      OwnerAndSaidFit(IN_COMMENT);
      InCommentIsCalm();
      NamedIsCalm(IN_COMMENT);
    } else {
      OpeningIsPlain(rules, defects, j);
      SaidAt(opening + QUOTED_LINE, 'n');
      OwnerAndSaidFit(opening + QUOTED_LINE);
      OpeningIsCalm(rules, defects, j);
      NamedIsCalm(opening + QUOTED_LINE);
    }
  }

  lemma FrontIsCalm(a: string, q: string, c: string, t: string)
    requires !Waits(a + (q + c + t))
    ensures !Waits(a + q)
  {
    assert a + (q + c + t) == (a + q) + (c + t);
    if Waits(a + q) { WaitsThen(a + q, c + t); }
  }

  /** What is read of a reason is a front of it. */
  lemma OpeningIsCalm(rules: Rules, defects: seq<Defect>, j: nat)
    requires AsksAt(defects, j) && !Waits(Joined(rules, defects))
    ensures !Waits(Opening(rules, defects, j) + QUOTED_LINE)
  {
    JoinedIsCut(rules, defects, j);
    FrontIsCalm(Opening(rules, defects, j), QUOTED_LINE, CLOSE + REQUIRES_REST, Rest(rules, defects, j));
  }

  ghost predicate BeginsNothing(s: string) {
    forall k :: 0 <= k < |s| ==> !Begins(s[k])
  }

  /** A short text can hold only the shortest word, at one of its first two letters. */
  lemma ShortIsCalm(s: string)
    requires |s| == 7 && Fold(s[0]) != 'd' && Fold(s[1]) != 'd'
    requires Lacks(s, 'r') && Lacks(s, 'b') && Lacks(s, 'w') && Lacks(s, '#')
    ensures !Waits(s)
  {
    WaitsExact(s);
    forall k | 0 <= k < |s| ensures !WaitsHere(s[k..]) {
      LackedLetter("predecessor", s, k, 'r');
      LackedLetter("blocked by", s, k, 'b');
      LackedLetter("waiting", s, k, 'w');
      assert s[k..][0] == s[k];
    }
  }

  ghost predicate NoneOfRbw(s: string) {
    forall k :: 0 <= k < |s| ==> 'a' <= s[k] <= 'q' && s[k] != 'b'
  }

  lemma PendingIsCalm()
    ensures !Waits("pending")
  {
    var s := "pending";
    assert |s| == 7 && s[0] == 'p' && s[1] == 'e';
    assert NoneOfRbw(s);
    ShortIsCalm(s);
  }

  lemma PendingParts()
    ensures PENDING == " contract intake " + "normalization " + "pending"
  {
  }

  lemma PlaceholderParts() returns (head: string)
    ensures Placeholder().value == head + "pending" && BeginsNothing(head)
  {
    var a, b := " contract intake ", "normalization ";
    assert BeginsNothing(OWNER);
    assert BeginsNothing(a);
    assert BeginsNothing(b);
    PendingParts();
    head := OWNER + ":" + (a + b);
    Reassociate(OWNER + ":", a + b, "pending");
  }

  /** So does the placeholder it replaces. */
  lemma PlaceholderFits(rules: Rules)
    ensures BlockerFits(rules, Only([Placeholder().value]), "blocked")
  {
    var value := Placeholder().value;
    var head := PlaceholderParts();
    PlaceholderIsRead(rules, "blocked");
    BlockerExact(rules, Strip(value), "blocked");
    PendingIsCalm();
    if Waits(Strip(value)) {
      WaitsStripped(value);
      WaitsBehind(head, "pending");
    }
  }
}
