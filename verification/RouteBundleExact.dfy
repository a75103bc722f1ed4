/** What the route bundle's text, parser and checker say, without naming any of them
    (provider_contract.py:57-176). */
module RouteBundleExact {
  import opened Wrappers
  import opened Text
  import opened RouteBundle
  import opened RouteBundleTheorems

  // ----- concatenation

  lemma {:induction false} ConcatExact(a: seq<Bytes>, b: seq<Bytes>)
    ensures Concat(a + b) == Concat(a) + Concat(b) && Concat([]) == []
    ensures |a| == 1 ==> Concat(a) == a[0]
  {
    if a == [] {
      assert a + b == b;
    } else {
      ConcatExact(a[1..], b);
      assert (a + b)[1..] == a[1..] + b;
      Associates(a[0], Concat(a[1..]), Concat(b));
    }
  }

  // ----- the assembled text

  /** One section of an assembled bundle. */
  ghost function SectionText(sha: Bytes -> Digest, index: nat, path: string, body: Bytes): Bytes {
    "--- noodles-bundle-section " + Decimal(index) + " " + path + " sha256=" + sha(body) + " bytes="
    + Decimal(|body|) + " ---\n" + body + "\n"
  }

  ghost function SectionTexts(
    sha: Bytes -> Digest, files: map<string, Bytes>, index: nat, paths: seq<string>): (r: seq<Bytes>)
    requires forall k :: 0 <= k < |paths| ==> paths[k] in files
    ensures |r| == |paths|
  {
    seq(|paths|, k requires 0 <= k < |paths| => SectionText(sha, index + k, paths[k], files[paths[k]]))
  }

  lemma JoinSeven(a: string, b: string, c: string, d: string, e: string, f: string, g: string)
    ensures Join([a, b, c, d, e, f, g], " ") ==
            a + " " + b + " " + c + " " + d + " " + e + " " + f + " " + g
  {
    var sp := " ";
    JoinTwo(f, g);
    JoinMore(e, [f, g]);
    JoinMore(d, [e, f, g]);
    JoinMore(c, [d, e, f, g]);
    JoinMore(b, [c, d, e, f, g]);
    JoinMore(a, [b, c, d, e, f, g]);
  }

  lemma JoinTwo(a: string, b: string)
    ensures Join([a, b], " ") == a + " " + b
  {
    assert [a, b][1..] == [b];
  }

  lemma JoinMore(a: string, parts: seq<string>)
    requires parts != []
    ensures Join([a] + parts, " ") == a + " " + Join(parts, " ")
  {
    assert ([a] + parts)[1..] == parts;
  }

  lemma HeadLiterals()
    ensures "--- noodles-bundle-section " == "---" + " " + "noodles-bundle-section" + " "
    ensures " sha256=" == " " + "sha256=" && " bytes=" == " " + "bytes=" && " ---\n" == " " + "---" + "\n"
  {
  }

  /** The seven words of a section header, as one text. */
  ghost function HeadText(index: string, path: string, digest: string, size: string): string {
    "--- noodles-bundle-section " + index + " " + path + " sha256=" + digest + " bytes=" + size + " ---"
  }

  lemma HeadWords(index: string, path: string, digest: string, size: string)
    ensures Join(["---", "noodles-bundle-section", index, path, "sha256=" + digest, "bytes=" + size, "---"], " ") ==
            HeadText(index, path, digest, size)
  {
    JoinSeven("---", "noodles-bundle-section", index, path, "sha256=" + digest, "bytes=" + size, "---");
    HeadLiterals();
  }

  lemma ChunkText(sha: Bytes -> Digest, index: nat, path: string, body: Bytes)
    ensures Chunk(sha, index, path, body) == SectionText(sha, index, path, body)
  {
    HeadWords(Decimal(index), path, sha(body), Decimal(|body|));
    HeadLiterals();
  }

  lemma TextsTail(sha: Bytes -> Digest, files: map<string, Bytes>, index: nat, paths: seq<string>)
    requires paths != [] && forall k :: 0 <= k < |paths| ==> paths[k] in files
    ensures var texts := SectionTexts(sha, files, index, paths);
            && texts[0] == SectionText(sha, index, paths[0], files[paths[0]])
            && texts[1..] == SectionTexts(sha, files, index + 1, paths[1..])
  {
    var texts, tail := SectionTexts(sha, files, index, paths), SectionTexts(sha, files, index + 1, paths[1..]);
    forall k | 0 <= k < |tail| ensures texts[1..][k] == tail[k] {
      assert paths[1..][k] == paths[k + 1] && index + (k + 1) == index + 1 + k;
    }
  }

  lemma {:induction false} ChunksText(sha: Bytes -> Digest, files: map<string, Bytes>, index: nat, paths: seq<string>)
    requires forall k :: 0 <= k < |paths| ==> paths[k] in files
    ensures Chunks(sha, files, index, paths) == Concat(SectionTexts(sha, files, index, paths))
    decreases |paths|
  {
    if paths == [] {
    } else {
      ChunkText(sha, index, paths[0], files[paths[0]]);
      ChunksText(sha, files, index + 1, paths[1..]);
      TextsTail(sha, files, index, paths);
    }
  }

  /** The text of a bundle: five header lines, and then each file in order, framed by its number, path, digest and
      length. */
  lemma BundleText(sha: Bytes -> Digest, files: map<string, Bytes>, id: Identity, paths: seq<string>)
    requires forall k :: 0 <= k < |paths| ==> paths[k] in files
    ensures Bundle(sha, files, id, paths) ==
            HeaderText(id, Decimal(|paths|)) + Concat(SectionTexts(sha, files, 0, paths))
  {
    ChunksText(sha, files, 0, paths);
    HeaderTextExact(id, |paths|);
  }

  ghost function HeaderText(id: Identity, count: string): string {
    "noodles-route-bundle v1" + "\n" + ("route: " + id.route) + "\n" + ("provider: " + id.provider) + "\n"
    + ("commit: " + id.commit) + "\n" + ("sections: " + count) + "\n"
  }

  lemma FiveLines(a: string, b: string, c: string, d: string, e: string)
    ensures Lines([a, b, c, d, e]) == a + "\n" + b + "\n" + c + "\n" + d + "\n" + e + "\n"
  {
    LinesMore(e, []);
    LinesMore(d, [e]);
    LinesMore(c, [d, e]);
    LinesMore(b, [c, d, e]);
    LinesMore(a, [b, c, d, e]);
  }

  lemma LinesMore(a: string, ls: seq<string>)
    ensures Lines([a] + ls) == a + "\n" + Lines(ls)
  {
    assert ([a] + ls)[1..] == ls;
  }

  lemma FieldKeys()
    ensures "route" + ": " == "route: " && "provider" + ": " == "provider: "
    ensures "commit" + ": " == "commit: " && "sections" + ": " == "sections: "
  {
  }

  lemma HeaderTextExact(id: Identity, count: nat)
    ensures Lines(HeaderOf(id, count)) == HeaderText(id, Decimal(count))
  {
    FieldKeys();
    FiveLines("noodles-route-bundle v1", "route: " + id.route, "provider: " + id.provider, "commit: " + id.commit,
              "sections: " + Decimal(count));
  }

  // ----- the parser

  /** The line is a section header: two numbers, a path without spaces and a digest, between fixed words. */
  ghost predicate Heading(raw: string, h: Head, index: string, size: string) {
    && AllDigits(index) && AllDigits(size) && Value(index) == h.index && Value(size) == h.size
    && IsPathText(h.path) && raw == HeadText(index, h.path, h.digest, size) && |h.digest| == 64
    && forall k :: 0 <= k < 64 ==> '0' <= h.digest[k] <= '9' || 'a' <= h.digest[k] <= 'f'
  }

  lemma WordsLackSpace(index: string, path: string, digest: string, size: string)
    requires AllDigits(index) && AllDigits(size) && IsPathText(path) && IsHexDigest(digest)
    ensures forall k :: 0 <= k < 7 ==>
              ' ' !in ["---", "noodles-bundle-section", index, path, "sha256=" + digest, "bytes=" + size, "---"][k]
  {
    forall k | 0 <= k < |path| ensures path[k] != ' ' { assert !IsSpace(path[k]); }
    forall k | 0 <= k < |index| ensures index[k] != ' ' { assert IsDigit(index[k]); }
    forall k | 0 <= k < |size| ensures size[k] != ' ' { assert IsDigit(size[k]); }
  }

  lemma HeadingMatches(raw: string, h: Head, index: string, size: string)
    requires Heading(raw, h, index, size)
    ensures MatchHead(raw) == Some(h)
  {
    var words := ["---", "noodles-bundle-section", index, h.path, "sha256=" + h.digest, "bytes=" + size, "---"];
    HeadWords(index, h.path, h.digest, size);
    WordsLackSpace(index, h.path, h.digest, size);
    SplitJoin(words, ' ');
    AfterExact("sha256=", h.digest);
    AfterExact("bytes=", size);
  }

  lemma AfterExact(prefix: string, s: string)
    ensures After(prefix, prefix + s) == Some(s)
  {
  }

  lemma MatchIsHeading(raw: string)
    requires MatchHead(raw).Some?
    ensures exists index, size :: Heading(raw, MatchHead(raw).value, index, size)
  {
    var t, h := Split(raw, ' '), MatchHead(raw).value;
    JoinSplit(raw, ' ');
    var index, size := t[2], After("bytes=", t[5]).value;
    assert t[4] == "sha256=" + h.digest && t[5] == "bytes=" + size;
    assert t == [t[0], t[1], t[2], t[3], t[4], t[5], t[6]];
    HeadWords(index, h.path, h.digest, size);
    assert Heading(raw, h, index, size);
  }

  /** A line is read as a section header exactly when it is one. */
  lemma MatchHeadExact(raw: string, h: Head)
    ensures MatchHead(raw) == Some(h) <==> exists index, size :: Heading(raw, h, index, size)
  {
    if MatchHead(raw) == Some(h) { MatchIsHeading(raw); }
    if index, size :| Heading(raw, h, index, size) { HeadingMatches(raw, h, index, size); }
  }

  /** A header line is cut at its first colon and space. */
  ghost predicate IsField(line: string, key: string, value: string) {
    && line == key + ": " + value
    && forall i :: 0 <= i < |key| ==> !(line[i] == ':' && line[i + 1] == ' ')
  }

  lemma {:induction false} PartitionExact(line: string)
    ensures match Partition(line)
            case None => forall i :: 0 <= i < |line| - 1 ==> !(line[i] == ':' && line[i + 1] == ' ')
            case Some(f) => IsField(line, f.0, f.1)
  {
    if |line| < 2 {
    } else if line[0] == ':' && line[1] == ' ' {
      assert line == "" + ": " + line[2..];
    } else {
      var rest := line[1..];
      PartitionExact(rest);
      var r := Partition(rest);
      if r.Some? {
        var key, value := [line[0]] + r.value.0, r.value.1;
        assert line == key + ": " + value;
        forall i | 0 <= i < |key| ensures !(line[i] == ':' && line[i + 1] == ' ') {
          if i > 0 { assert rest[i - 1] == line[i] && rest[i] == line[i + 1]; }
        }
      } else {
        forall i | 0 <= i < |line| - 1 ensures !(line[i] == ':' && line[i + 1] == ' ') {
          if i > 0 { assert rest[i - 1] == line[i] && rest[i] == line[i + 1]; }
        }
      }
    }
  }

  /** Line k gives the key this value, and no later line gives it another. */
  ghost predicate LastGives(lines: seq<string>, key: string, value: string, k: nat) {
    && k < |lines| && Partition(lines[k]) == Some((key, value))
    && forall j :: k < j < |lines| ==> Partition(lines[j]).Some? && Partition(lines[j]).value.0 != key
  }

  ghost predicate Gives(lines: seq<string>, key: string, value: string) {
    exists k: nat :: LastGives(lines, key, value, k)
  }

  ghost predicate Holds(fields: map<string, string>, key: string, value: string) {
    key in fields && fields[key] == value
  }

  /** Header lines all hold a field or are refused; the last line for a key gives its value. */
  lemma {:induction false} FieldsExact(lines: seq<string>)
    ensures Fields(lines).Some? <==> forall k :: 0 <= k < |lines| ==> Partition(lines[k]).Some?
    ensures Fields(lines).Some? ==>
              forall key, value :: Holds(Fields(lines).value, key, value) <==> Gives(lines, key, value)
  {
    if lines == [] {
    } else {
      var front := lines[..|lines| - 1];
      FieldsExact(front);
      assert forall k :: 0 <= k < |front| ==> front[k] == lines[k];
      if Fields(lines).Some? {
        forall key, value ensures Holds(Fields(lines).value, key, value) <==> Gives(lines, key, value) {
          assert Holds(Fields(front).value, key, value) <==> Gives(front, key, value);
          FieldGives(lines, key, value);
        }
      }
    }
  }

  lemma FieldGives(lines: seq<string>, key: string, value: string)
    requires lines != [] && Fields(lines).Some?
    requires var front := lines[..|lines| - 1]; Holds(Fields(front).value, key, value) <==> Gives(front, key, value)
    ensures Holds(Fields(lines).value, key, value) <==> Gives(lines, key, value)
  {
    var n := |lines| - 1;
    var front, last := lines[..n], Partition(lines[n]).value;
    if last.0 == key {
      assert LastGives(lines, key, last.1, n);
      if k: nat :| LastGives(lines, key, value, k) { assert k == n; }
    } else {
      if k: nat :| LastGives(front, key, value, k) { assert LastGives(lines, key, value, k); }
      if k: nat :| LastGives(lines, key, value, k) { assert k < n && LastGives(front, key, value, k); }
    }
  }

  /** The header of five lines: the first is the version, unless a later line is a field of that name. */
  ghost predicate HeaderIs(header: map<string, string>, lines: seq<string>) {
    && |lines| == 5 && (forall k :: 1 <= k < 5 ==> Partition(lines[k]).Some?)
    && forall key, value :: Holds(header, key, value) <==>
                              Gives(lines[1..], key, value)
                              || (key == "version" && value == lines[0] && !Given(lines[1..], "version"))
  }

  lemma HeaderExact(lines: seq<string>)
    requires |lines| == 5
    ensures Fields(lines[1..]).Some? <==> forall k :: 1 <= k < 5 ==> Partition(lines[k]).Some?
    ensures Fields(lines[1..]).Some? ==> HeaderIs(map["version" := lines[0]] + Fields(lines[1..]).value, lines)
  {
    var rest := lines[1..];
    FieldsExact(rest);
    assert forall k :: 1 <= k < 5 ==> lines[k] == rest[k - 1];
    assert forall k :: 0 <= k < 4 ==> rest[k] == lines[k + 1];
    if Fields(rest).Some? {
      HeaderHolds(lines[0], rest);
    }
  }

  lemma HeaderHolds(version: string, rest: seq<string>)
    requires Fields(rest).Some?
    ensures forall key, value :: Holds(map["version" := version] + Fields(rest).value, key, value) <==>
                                   Gives(rest, key, value)
                                   || (key == "version" && value == version && !Given(rest, "version"))
  {
    FieldsExact(rest);
    VersionGiven(rest);
    var header := map["version" := version] + Fields(rest).value;
    forall key, value ensures Holds(header, key, value) <==>
                                Gives(rest, key, value)
                                || (key == "version" && value == version && !Given(rest, "version"))
    {
      assert Holds(Fields(rest).value, key, value) <==> Gives(rest, key, value);
      assert key in Fields(rest).value <==> Given(rest, key);
    }
  }

  ghost predicate Given(lines: seq<string>, key: string) {
    exists k :: 0 <= k < |lines| && Partition(lines[k]).Some? && Partition(lines[k]).value.0 == key
  }

  /** A key is in the fields when some line gives it. */
  lemma {:induction false} VersionGiven(lines: seq<string>)
    requires Fields(lines).Some?
    ensures forall key :: key in Fields(lines).value <==> Given(lines, key)
  {
    if lines == [] {
    } else {
      var n := |lines| - 1;
      VersionGiven(lines[..n]);
      forall key ensures key in Fields(lines).value <==> Given(lines, key) {
        GivenNext(lines, key);
      }
    }
  }

  lemma GivenNext(lines: seq<string>, key: string)
    requires lines != [] && Partition(lines[|lines| - 1]).Some?
    ensures Given(lines, key) <==>
            Given(lines[..|lines| - 1], key) || Partition(lines[|lines| - 1]).value.0 == key
  {
    var n := |lines| - 1;
    if k :| 0 <= k < n && Partition(lines[k]).Some? && Partition(lines[k]).value.0 == key {
      assert lines[..n][k] == lines[k];
    }
  }

  lemma SectionOfFrame(head: string, s: Section, rest: Bytes, index: nat)
    requires HeadsAt(head, s, index)
    ensures TakeSection(head + "\n" + (s.body + "\n") + rest, index) == Some((s, rest))
  {
    var remainder := s.body + "\n" + rest;
    assert head + "\n" + (s.body + "\n") + rest == head + "\n" + remainder;
    BreakLine(head, remainder);
    assert remainder[..|s.body|] == s.body && remainder[|s.body| + 1..] == rest;
  }

  lemma OneMore(cursor: Bytes, sections: seq<Section>, rest: Bytes, index: nat)
    requires sections != [] && cursor != [] && TakeSection(cursor, index) == Some((sections[0], rest))
    requires |rest| < |cursor| && Sections(rest, index + 1) == Some(sections[1..])
    ensures Sections(cursor, index) == Some(sections)
  {
    assert sections == [sections[0]] + sections[1..];
  }

  lemma {:induction false} SectionsOfFrame(heads: seq<string>, sections: seq<Section>, index: nat)
    requires Heads(heads, sections, index)
    ensures Sections(RouteBundleTheorems.Framed(heads, sections), index) == Some(sections)
    decreases |heads|
  {
    if heads == [] {
    } else {
      var rest := RouteBundleTheorems.Framed(heads[1..], sections[1..]);
      assert HeadsAt(heads[0], sections[0], index);
      SectionOfFrame(heads[0], sections[0], rest, index);
      forall k | 0 <= k < |heads[1..]| ensures HeadsAt(heads[1..][k], sections[1..][k], index + 1 + k) {
        assert HeadsAt(heads[k + 1], sections[k + 1], index + (k + 1));
      }
      SectionsOfFrame(heads[1..], sections[1..], index + 1);
      OneMore(heads[0] + "\n" + (sections[0].body + "\n") + rest, sections, rest, index);
    }
  }

  /** Five header lines, and then sections, each behind a header line of its own with its number and length. */
  ghost predicate IsBundle(payload: Bytes, p: Parsed, lines: seq<string>, heads: seq<string>) {
    && HeaderIs(p.header, lines) && (forall k :: 0 <= k < |lines| ==> '\n' !in lines[k])
    && Heads(heads, p.sections, 0) && payload == Lines(lines) + RouteBundleTheorems.Framed(heads, p.sections)
  }

  lemma ParsedIsBundle(payload: Bytes) returns (lines: seq<string>, heads: seq<string>)
    requires Parse(payload).Some?
    ensures IsBundle(payload, Parse(payload).value, lines, heads)
  {
    LinesFrame(payload, HEADER_LINES);
    LinesHoldNoBreak(payload, HEADER_LINES);
    lines := TakeLines(payload, HEADER_LINES).value.0;
    heads := SectionsFrame(TakeLines(payload, HEADER_LINES).value.1, 0);
    HeaderExact(lines);
  }

  lemma {:induction false} LinesHoldNoBreak(s: Bytes, n: nat)
    requires TakeLines(s, n).Some?
    ensures forall k :: 0 <= k < |TakeLines(s, n).value.0| ==> '\n' !in TakeLines(s, n).value.0[k]
    decreases n
  {
    if n > 0 {
      BreakExact(s);
      LinesHoldNoBreak(Break(s).value.1, n - 1);
    }
  }

  lemma BundleIsParsed(payload: Bytes, p: Parsed, lines: seq<string>, heads: seq<string>)
    requires IsBundle(payload, p, lines, heads)
    ensures Parse(payload) == Some(p)
  {
    var body := RouteBundleTheorems.Framed(heads, p.sections);
    TakeLinesOfLines(lines, body);
    SectionsOfFrame(heads, p.sections, 0);
    HeaderExact(lines);
    ParseParts(payload, lines, body);
    SameHolds(Parse(payload).value.header, p.header, lines);
  }

  lemma SameHolds(a: map<string, string>, b: map<string, string>, lines: seq<string>)
    requires HeaderIs(a, lines) && HeaderIs(b, lines)
    ensures a == b
  {
    forall key | key in a ensures key in b && b[key] == a[key] {
      assert Holds(a, key, a[key]);
      assert Holds(b, key, a[key]);
    }
    forall key | key in b ensures key in a {
      assert Holds(b, key, b[key]);
      assert Holds(a, key, b[key]);
    }
  }

  /** A payload is read as a header and sections exactly when it is a bundle of them. */
  lemma ParseExact(payload: Bytes, p: Parsed)
    ensures Parse(payload) == Some(p) <==> exists lines, heads :: IsBundle(payload, p, lines, heads)
  {
    if Parse(payload) == Some(p) {
      var lines, heads := ParsedIsBundle(payload);
    }
    if lines, heads :| IsBundle(payload, p, lines, heads) { BundleIsParsed(payload, p, lines, heads); }
  }

  // ----- the report

  /** The sections name the expected paths, in order. */
  ghost predicate Traverses(sections: seq<Section>, expected: seq<string>) {
    |sections| == |expected| && forall k :: 0 <= k < |sections| ==> sections[k].path == expected[k]
  }

  lemma TraversesExact(sections: seq<Section>, expected: seq<string>)
    ensures Traverses(sections, expected) <==> Paths(sections) == expected
  {
    if Traverses(sections, expected) { assert Paths(sections) == expected; }
    if Paths(sections) == expected {
      forall k | 0 <= k < |sections| ensures sections[k].path == expected[k] {
        assert Paths(sections)[k] == sections[k].path;
      }
    }
  }

  ghost function BodiesOf(sections: seq<Section>): seq<Bytes> {
    seq(|sections|, k requires 0 <= k < |sections| => sections[k].body)
  }

  ghost function FilesAt(files: map<string, Bytes>, paths: seq<string>): seq<Bytes>
    requires forall k :: 0 <= k < |paths| ==> paths[k] in files
  {
    seq(|paths|, k requires 0 <= k < |paths| => files[paths[k]])
  }

  lemma {:induction false} LiveExact(files: map<string, Bytes>, sections: seq<Section>, paths: seq<string>)
    requires Traverses(sections, paths)
    ensures |Live(files, sections)| <= |sections|
    ensures |Live(files, sections)| == |sections| <==> forall k :: 0 <= k < |paths| ==> paths[k] in files
    ensures (forall k :: 0 <= k < |paths| ==> paths[k] in files) ==> Live(files, sections) == FilesAt(files, paths)
  {
    if sections == [] {
    } else {
      var n := |sections| - 1;
      LiveExact(files, sections[..n], paths[..n]);
      assert forall k :: 0 <= k < n ==> paths[..n][k] == paths[k];
      if forall k :: 0 <= k < |paths| ==> paths[k] in files {
        assert FilesAt(files, paths) == FilesAt(files, paths[..n]) + [files[paths[n]]];
      }
    }
  }

  /** The two digests, whatever errors there are. The one fed is that of the bodies the bundle carries, once it parses
      and names the expected paths; the live one is that of the files at those paths, once all of them are there. */
  lemma DigestsExact(
    sha: Bytes -> Digest, files: map<string, Bytes>, id: Identity, expected: seq<string>, payload: Bytes)
    ensures var report, parsed := Check(sha, files, id, expected, payload), Parse(payload);
            && (report.fed.Some? <==> parsed.Some? && Traverses(parsed.value.sections, expected))
            && (report.fed.Some? ==> report.fed.value == sha(Concat(BodiesOf(parsed.value.sections))))
            && (report.live.Some? <==> report.fed.Some? && forall k :: 0 <= k < |expected| ==> expected[k] in files)
            && (report.live.Some? ==> report.live.value == sha(Concat(FilesAt(files, expected))))
  {
    var parsed := Parse(payload);
    if parsed.Some? {
      var sections := parsed.value.sections;
      TraversesExact(sections, expected);
      if Traverses(sections, expected) {
        LiveExact(files, sections, expected);
        assert Bodies(sections) == BodiesOf(sections);
      }
    }
  }

  /** What is wrong with one field of the header. */
  ghost function FieldFault(header: map<string, string>, key: string, value: string): seq<Fault> {
    if Holds(header, key, value) then [] else [HeaderDiffers(key)]
  }

  lemma HeaderFaultsCons(header: map<string, string>, key: string, value: string, rest: seq<(string, string)>)
    ensures HeaderFaults(header, [(key, value)] + rest) == FieldFault(header, key, value) + HeaderFaults(header, rest)
  {
    assert ([(key, value)] + rest)[1..] == rest;
  }

  /** The header's five fields are compared in this order. */
  lemma HeaderFaultsFive(header: map<string, string>, id: Identity, count: nat)
    ensures HeaderFaults(header, Expected(id, count)) ==
            FieldFault(header, "version", "noodles-route-bundle v1")
            + (FieldFault(header, "route", id.route)
               + (FieldFault(header, "provider", id.provider)
                  + (FieldFault(header, "commit", id.commit) + FieldFault(header, "sections", Decimal(count)))))
  {
    var a, b, c, d, e := ("version", "noodles-route-bundle v1"), ("route", id.route), ("provider", id.provider),
      ("commit", id.commit), ("sections", Decimal(count));
    HeaderFaultsCons(header, e.0, e.1, []);
    HeaderFaultsCons(header, d.0, d.1, [e]);
    HeaderFaultsCons(header, c.0, c.1, [d, e]);
    HeaderFaultsCons(header, b.0, b.1, [c, d, e]);
    HeaderFaultsCons(header, a.0, a.1, [b, c, d, e]);
    assert [e] + [] == [e] && [d] + [e] == [d, e] && [c] + [d, e] == [c, d, e];
    assert [b] + [c, d, e] == [b, c, d, e] && [a] + [b, c, d, e] == [a, b, c, d, e];
    assert FieldFault(header, e.0, e.1) + [] == FieldFault(header, e.0, e.1);
  }

  /** What is wrong with a section: no file; or its digest first, then its bytes. */
  ghost function SectionFault(sha: Bytes -> Digest, files: map<string, Bytes>, s: Section): seq<Fault> {
    if s.path !in files then [NoPinnedFile(s.path)]
    else if s.digest == sha(files[s.path]) && s.body == files[s.path] then []
    else if s.digest == sha(files[s.path]) then [BytesDiffer(s.path)]
    else if s.body == files[s.path] then [DigestDiffers(s.path)]
    else [DigestDiffers(s.path), BytesDiffer(s.path)]
  }

  ghost function FaultsOf(sha: Bytes -> Digest, files: map<string, Bytes>, sections: seq<Section>): seq<Fault> {
    if sections == [] then []
    else SectionFault(sha, files, sections[0]) + FaultsOf(sha, files, sections[1..])
  }

  lemma {:induction false} FaultsSnoc(
    sha: Bytes -> Digest, files: map<string, Bytes>, sections: seq<Section>, s: Section)
    ensures FaultsOf(sha, files, sections + [s]) == FaultsOf(sha, files, sections) + SectionFault(sha, files, s)
  {
    var all := sections + [s];
    if sections == [] {
      assert all[0] == s && all[1..] == [];
    } else {
      FaultsSnoc(sha, files, sections[1..], s);
      assert all[0] == sections[0] && all[1..] == sections[1..] + [s];
      var first, last := SectionFault(sha, files, sections[0]), SectionFault(sha, files, s);
      Associates(first, FaultsOf(sha, files, sections[1..]), last);
    }
  }

  lemma {:induction false} AllFaultsExact(sha: Bytes -> Digest, files: map<string, Bytes>, sections: seq<Section>)
    ensures AllSectionFaults(sha, files, sections) == FaultsOf(sha, files, sections)
  {
    if sections == [] {
    } else {
      var n := |sections| - 1;
      AllFaultsExact(sha, files, sections[..n]);
      FaultsSnoc(sha, files, sections[..n], sections[n]);
      assert sections == sections[..n] + [sections[n]];
      assert SectionFaults(sha, files, sections[n]) == SectionFault(sha, files, sections[n]);
    }
  }

  /** The errors: one for a payload that does not parse; otherwise those of the header's fields, and after them one
      for a traversal that differs or those of the sections in order. */
  lemma ErrorsExact(
    sha: Bytes -> Digest, files: map<string, Bytes>, id: Identity, expected: seq<string>, payload: Bytes)
    ensures var errors, parsed := Check(sha, files, id, expected, payload).errors, Parse(payload);
            && (parsed.None? ==> errors == [Unparseable])
            && (parsed.Some? ==>
                  errors == HeaderFaults(parsed.value.header, Expected(id, |expected|))
                            + (if Traverses(parsed.value.sections, expected)
                               then FaultsOf(sha, files, parsed.value.sections) else [TraversalDiffers]))
  {
    var parsed := Parse(payload);
    if parsed.Some? {
      TraversesExact(parsed.value.sections, expected);
      AllFaultsExact(sha, files, parsed.value.sections);
    }
  }
}
