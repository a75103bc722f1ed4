/** Round trip and soundness of the route bundle (provider_contract.py:57-176). */
module RouteBundleTheorems {
  import opened Wrappers
  import opened Text
  import opened RouteBundle

  // ----- soundness: a report without errors

  lemma {:induction false} HeaderFaultsExact(header: map<string, string>, expected: seq<(string, string)>)
    ensures HeaderFaults(header, expected) == [] <==>
            forall k :: 0 <= k < |expected| ==> expected[k].0 in header && header[expected[k].0] == expected[k].1
  {
    if expected == [] {
    } else {
      HeaderFaultsExact(header, expected[1..]);
      assert forall k :: 1 <= k < |expected| ==> expected[k] == expected[1..][k - 1];
    }
  }

  /** The section is its pinned file, under its digest. */
  ghost predicate Pinned(sha: Bytes -> Digest, files: map<string, Bytes>, s: Section) {
    s.path in files && s == Section(s.path, sha(files[s.path]), files[s.path])
  }

  lemma {:induction false} SectionFaultsExact(sha: Bytes -> Digest, files: map<string, Bytes>, sections: seq<Section>)
    ensures AllSectionFaults(sha, files, sections) == []
            <==> forall k :: 0 <= k < |sections| ==> Pinned(sha, files, sections[k])
  {
    if sections == [] {
    } else {
      var n := |sections| - 1;
      SectionFaultsExact(sha, files, sections[..n]);
      assert SectionFaults(sha, files, sections[n]) == [] <==> Pinned(sha, files, sections[n]);
      assert forall k :: 0 <= k < n ==> sections[..n][k] == sections[k];
    }
  }

  lemma {:induction false} PinnedIsLive(sha: Bytes -> Digest, files: map<string, Bytes>, sections: seq<Section>)
    requires forall k :: 0 <= k < |sections| ==> Pinned(sha, files, sections[k])
    ensures Live(files, sections) == Bodies(sections)
  {
    if sections == [] {
    } else {
      var n := |sections| - 1;
      assert forall k :: 0 <= k < n ==> sections[..n][k] == sections[k];
      PinnedIsLive(sha, files, sections[..n]);
      assert Pinned(sha, files, sections[n]);
      assert Bodies(sections) == Bodies(sections[..n]) + [sections[n].body];
    }
  }

  /** Header lines, bodies and newlines, with nothing between or after them. */
  function Framed(heads: seq<string>, sections: seq<Section>): Bytes
    requires |heads| == |sections|
  {
    if heads == [] then [] else heads[0] + "\n" + (sections[0].body + "\n") + Framed(heads[1..], sections[1..])
  }

  ghost predicate Heads(heads: seq<string>, sections: seq<Section>, index: nat) {
    && |heads| == |sections|
    && forall k :: 0 <= k < |heads| ==> HeadsAt(heads[k], sections[k], index + k)
  }

  ghost predicate HeadsAt(head: string, s: Section, index: nat) {
    '\n' !in head && MatchHead(head) == Some(Head(index, s.path, s.digest, |s.body|))
  }

  lemma TakeSectionFrames(cursor: Bytes, index: nat) returns (head: string)
    requires TakeSection(cursor, index).Some?
    ensures var (s, rest) := TakeSection(cursor, index).value;
            HeadsAt(head, s, index) && cursor == head + "\n" + (s.body + "\n") + rest
  {
    BreakExact(cursor);
    head := Break(cursor).value.0;
    var remainder := Break(cursor).value.1;
    var size := MatchHead(head).value.size;
    assert remainder == remainder[..size] + [remainder[size]] + remainder[size + 1..];
    assert cursor == head + "\n" + remainder;
  }

  lemma {:induction false} SectionsFrame(cursor: Bytes, index: nat) returns (heads: seq<string>)
    requires Sections(cursor, index).Some?
    ensures Heads(heads, Sections(cursor, index).value, index) && cursor == Framed(heads, Sections(cursor, index).value)
    decreases |cursor|
  {
    if cursor == [] {
      heads := [];
    } else {
      TakeSectionAdvances(cursor, index);
      var head := TakeSectionFrames(cursor, index);
      var (s, rest) := TakeSection(cursor, index).value;
      var more := SectionsFrame(rest, index + 1);
      heads := [head] + more;
      var all := Sections(cursor, index).value;
      assert all == [s] + Sections(rest, index + 1).value && all[1..] == Sections(rest, index + 1).value
        && heads[1..] == more;
      forall k | 0 <= k < |heads| ensures HeadsAt(heads[k], all[k], index + k) {
        if k > 0 { assert HeadsAt(more[k - 1], all[1..][k - 1], index + 1 + (k - 1)); }
      }
    }
  }

  lemma {:induction false} LinesFrame(s: Bytes, n: nat)
    requires TakeLines(s, n).Some?
    ensures |TakeLines(s, n).value.0| == n && s == Lines(TakeLines(s, n).value.0) + TakeLines(s, n).value.1
    decreases n
  {
    if n == 0 {
    } else {
      BreakExact(s);
      var b := Break(s).value;
      LinesFrame(b.1, n - 1);
      var r := TakeLines(b.1, n - 1).value;
      assert ([b.0] + r.0)[1..] == r.0;
      Associates(b.0 + "\n", Lines(r.0), r.1);
    }
  }

  /** A payload reported without errors is five header lines and then exactly the pinned bytes of the
      expected paths, in order, each behind a header line that names its index, digest and length. */
  lemma CheckedBundleIsPinned(
    sha: Bytes -> Digest, files: map<string, Bytes>, id: Identity, expected: seq<string>, payload: Bytes)
    returns (lines: seq<string>, heads: seq<string>)
    requires Check(sha, files, id, expected, payload).errors == []
    ensures forall k :: 0 <= k < |expected| ==> expected[k] in files
    ensures var sections := PinnedSections(sha, files, expected);
            && |lines| == HEADER_LINES && Heads(heads, sections, 0)
            && payload == Lines(lines) + Framed(heads, sections)
            && Parse(payload).Some? && Parse(payload).value.sections == sections
    ensures var header := Parse(payload).value.header;
            forall k :: 0 <= k < |Expected(id, |expected|)| ==>
              var (key, value) := Expected(id, |expected|)[k]; key in header && header[key] == value
    ensures var report := Check(sha, files, id, expected, payload); report.fed.Some? && report.fed == report.live
  {
    var parsed := Parse(payload).value;
    HeaderFaultsExact(parsed.header, Expected(id, |expected|));
    SectionFaultsExact(sha, files, parsed.sections);
    PinnedIsLive(sha, files, parsed.sections);
    LinesFrame(payload, HEADER_LINES);
    lines := TakeLines(payload, HEADER_LINES).value.0;
    heads := SectionsFrame(TakeLines(payload, HEADER_LINES).value.1, 0);
    assert Paths(parsed.sections) == expected;
    forall k | 0 <= k < |expected|
      ensures expected[k] in files
      ensures parsed.sections[k] == Section(expected[k], sha(files[expected[k]]), files[expected[k]])
    {
      assert Paths(parsed.sections)[k] == parsed.sections[k].path;
      assert Pinned(sha, files, parsed.sections[k]);
    }
    assert parsed.sections == PinnedSections(sha, files, expected);
  }

  function PinnedSections(sha: Bytes -> Digest, files: map<string, Bytes>, paths: seq<string>): (r: seq<Section>)
    requires forall k :: 0 <= k < |paths| ==> paths[k] in files
    ensures |r| == |paths|
  {
    seq(|paths|, k requires 0 <= k < |paths| => Section(paths[k], sha(files[paths[k]]), files[paths[k]]))
  }

  // ----- round trip: an assembled bundle

  lemma {:induction false} JoinLacks(parts: seq<string>, sep: string, c: char)
    requires c !in sep && forall k :: 0 <= k < |parts| ==> c !in parts[k]
    ensures c !in Join(parts, sep)
  {
    if |parts| <= 1 {
    } else {
      JoinLacks(parts[1..], sep, c);
    }
  }

  lemma DecimalLacks(n: nat, c: char)
    requires !IsDigit(c)
    ensures c !in Decimal(n)
  {
    forall k | 0 <= k < |Decimal(n)| ensures Decimal(n)[k] != c {
      assert IsDigit(Decimal(n)[k]);
    }
  }

  function Tokens(index: nat, path: string, digest: Digest, size: nat): seq<string> {
    ["---", "noodles-bundle-section", Decimal(index), path, "sha256=" + digest, "bytes=" + Decimal(size), "---"]
  }

  lemma TokensLack(index: nat, path: string, digest: Digest, size: nat, c: char)
    requires IsPathText(path) && (c == ' ' || c == '\n')
    ensures forall k :: 0 <= k < 7 ==> c !in Tokens(index, path, digest, size)[k]
  {
    DecimalLacks(index, c);
    DecimalLacks(size, c);
    assert c !in path by {
      forall k | 0 <= k < |path| ensures path[k] != c { assert !IsSpace(path[k]); }
    }
    assert c !in digest;
  }

  lemma HeadMatches(sha: Bytes -> Digest, index: nat, path: string, body: Bytes)
    requires IsPathText(path)
    ensures HeadsAt(SectionHeader(sha, index, path, body), Section(path, sha(body), body), index)
  {
    var tokens := Tokens(index, path, sha(body), |body|);
    TokensLack(index, path, sha(body), |body|, ' ');
    TokensLack(index, path, sha(body), |body|, '\n');
    JoinLacks(tokens, " ", '\n');
    SplitJoin(tokens, ' ');
    ValueOfDecimal(index);
    ValueOfDecimal(|body|);
    assert After("sha256=", tokens[4]) == Some(sha(body)) && After("bytes=", tokens[5]) == Some(Decimal(|body|));
  }

  /** The parser takes an assembled section off the cursor whatever its body holds. */
  lemma TakeSectionOfChunk(sha: Bytes -> Digest, index: nat, path: string, body: Bytes, rest: Bytes)
    requires IsPathText(path)
    ensures TakeSection(Chunk(sha, index, path, body) + rest, index) == Some((Section(path, sha(body), body), rest))
  {
    HeadMatches(sha, index, path, body);
    var head := SectionHeader(sha, index, path, body);
    var remainder := body + "\n" + rest;
    assert Chunk(sha, index, path, body) + rest == head + "\n" + remainder;
    BreakLine(head, remainder);
    assert remainder[..|body|] == body && remainder[|body| + 1..] == rest;
  }

  lemma {:induction false} SectionsOfChunks(
    sha: Bytes -> Digest, files: map<string, Bytes>, index: nat, paths: seq<string>)
    requires forall k :: 0 <= k < |paths| ==> paths[k] in files && IsPathText(paths[k])
    ensures Sections(Chunks(sha, files, index, paths), index) == Some(PinnedSections(sha, files, paths))
    decreases |paths|
  {
    if paths == [] {
    } else {
      var rest := Chunks(sha, files, index + 1, paths[1..]);
      TakeSectionOfChunk(sha, index, paths[0], files[paths[0]], rest);
      SectionsOfChunks(sha, files, index + 1, paths[1..]);
      var all := PinnedSections(sha, files, paths);
      assert all == [all[0]] + PinnedSections(sha, files, paths[1..]);
    }
  }

  lemma {:induction false} TakeLinesOfLines(ls: seq<string>, rest: Bytes)
    requires forall k :: 0 <= k < |ls| ==> '\n' !in ls[k]
    ensures TakeLines(Lines(ls) + rest, |ls|) == Some((ls, rest))
  {
    if ls == [] {
      assert Lines(ls) + rest == rest;
    } else {
      TakeLinesOfLines(ls[1..], rest);
      assert Lines(ls) + rest == ls[0] + "\n" + (Lines(ls[1..]) + rest);
      BreakLine(ls[0], Lines(ls[1..]) + rest);
      assert ls == [ls[0]] + ls[1..];
    }
  }

  lemma {:induction false} PartitionField(key: string, value: string)
    requires ':' !in key
    ensures Partition(key + ": " + value) == Some((key, value))
  {
    var line := key + ": " + value;
    if key == [] {
      assert line[2..] == value;
    } else {
      assert line[1..] == key[1..] + ": " + value;
      PartitionField(key[1..], value);
      assert key == [key[0]] + key[1..] && line[0] == key[0];
    }
  }

  predicate OneLine(s: string) {
    '\n' !in s
  }

  function FieldMap(id: Identity, count: nat): map<string, string> {
    map["route" := id.route]["provider" := id.provider]["commit" := id.commit]["sections" := Decimal(count)]
  }

  lemma HeaderParses(id: Identity, count: nat)
    ensures Fields(HeaderOf(id, count)[1..]) == Some(FieldMap(id, count))
  {
    var h := HeaderOf(id, count)[1..];
    PartitionField("route", id.route);
    PartitionField("provider", id.provider);
    PartitionField("commit", id.commit);
    PartitionField("sections", Decimal(count));
    assert h[..3][..2] == h[..2] && h[..2][..1] == h[..1] && h[..1][..0] == [];
    assert Fields(h[..1]) == Some(map["route" := id.route]);
    assert Fields(h[..2]) == Some(map["route" := id.route]["provider" := id.provider]);
    assert Fields(h[..3]) == Some(map["route" := id.route]["provider" := id.provider]["commit" := id.commit]);
  }

  lemma HeaderIsExpected(id: Identity, count: nat)
    ensures HeaderFaults(map["version" := VERSION] + FieldMap(id, count), Expected(id, count)) == []
  {
    var header := map["version" := VERSION] + FieldMap(id, count);
    assert header["version"] == VERSION && header["route"] == id.route && header["provider"] == id.provider;
    assert header["commit"] == id.commit && header["sections"] == Decimal(count);
    HeaderFaultsExact(header, Expected(id, count));
  }

  lemma BundleParses(sha: Bytes -> Digest, files: map<string, Bytes>, id: Identity, paths: seq<string>)
    requires OneLine(id.route) && OneLine(id.provider) && OneLine(id.commit)
    requires forall k :: 0 <= k < |paths| ==> paths[k] in files && IsPathText(paths[k])
    ensures Parse(Bundle(sha, files, id, paths)) ==
            Some(Parsed(map["version" := VERSION] + FieldMap(id, |paths|), PinnedSections(sha, files, paths)))
  {
    var h, body := HeaderOf(id, |paths|), Chunks(sha, files, 0, paths);
    DecimalLacks(|paths|, '\n');
    forall k | 0 <= k < |h| ensures '\n' !in h[k] {}
    TakeLinesOfLines(h, body);
    HeaderParses(id, |paths|);
    SectionsOfChunks(sha, files, 0, paths);
    ParseParts(Bundle(sha, files, id, paths), h, body);
  }

  lemma ParseParts(payload: Bytes, lines: seq<string>, body: Bytes)
    requires TakeLines(payload, HEADER_LINES) == Some((lines, body)) && lines != []
    requires Fields(lines[1..]).Some? && Sections(body, 0).Some?
    ensures Parse(payload) ==
            Some(Parsed(map["version" := lines[0]] + Fields(lines[1..]).value, Sections(body, 0).value))
  {
  }

  /** Checking an assembled bundle finds no error and the same digest fed and live, for any body bytes,
      bodies that read like section headers included. */
  lemma AssembledBundleChecks(sha: Bytes -> Digest, files: map<string, Bytes>, id: Identity, paths: seq<string>)
    requires OneLine(id.route) && OneLine(id.provider) && OneLine(id.commit)
    requires forall k :: 0 <= k < |paths| ==> paths[k] in files && IsPathText(paths[k])
    ensures var report := Check(sha, files, id, paths, Bundle(sha, files, id, paths));
            report.errors == [] && report.fed.Some? && report.fed == report.live
  {
    BundleParses(sha, files, id, paths);
    HeaderIsExpected(id, |paths|);
    var sections := PinnedSections(sha, files, paths);
    assert Paths(sections) == paths;
    forall k | 0 <= k < |sections| ensures Pinned(sha, files, sections[k]) {}
    SectionFaultsExact(sha, files, sections);
    PinnedIsLive(sha, files, sections);
  }
}
