/** The length-framed route bundle: assembled, parsed and checked (provider_contract.py:57-176).
    A byte is a character; nothing below depends on how many there are. */
module RouteBundle {
  import opened Wrappers
  import opened Text

  type Bytes = seq<char>

  /** The text of a sha256. */
  type Digest = s: string | IsHexDigest(s) witness seq(64, _ => '0')

  const VERSION := "noodles-route-bundle v1"

  const HEADER_LINES := 5

  datatype Identity = Identity(route: string, provider: string, commit: string)

  datatype Section = Section(path: string, digest: string, body: Bytes)

  // ----- printing

  function SectionHeader(sha: Bytes -> Digest, index: nat, path: string, body: Bytes): string {
    Join(["---", "noodles-bundle-section", Decimal(index), path, "sha256=" + sha(body), "bytes=" + Decimal(|body|),
      "---"], " ")
  }

  function HeaderOf(id: Identity, count: nat): seq<string> {
    [VERSION, "route" + ": " + id.route, "provider" + ": " + id.provider, "commit" + ": " + id.commit,
      "sections" + ": " + Decimal(count)]
  }

  function Lines(ls: seq<string>): Bytes {
    if ls == [] then [] else ls[0] + "\n" + Lines(ls[1..])
  }

  function Chunk(sha: Bytes -> Digest, index: nat, path: string, body: Bytes): Bytes {
    SectionHeader(sha, index, path, body) + "\n" + (body + "\n")
  }

  /** The sections of the files at `paths`, numbered from `index` on. */
  function Chunks(sha: Bytes -> Digest, files: map<string, Bytes>, index: nat, paths: seq<string>): Bytes
    requires forall k :: 0 <= k < |paths| ==> paths[k] in files
    decreases |paths|
  {
    if paths == [] then []
    else Chunk(sha, index, paths[0], files[paths[0]]) + Chunks(sha, files, index + 1, paths[1..])
  }

  function Bundle(sha: Bytes -> Digest, files: map<string, Bytes>, id: Identity, paths: seq<string>): Bytes
    requires forall k :: 0 <= k < |paths| ==> paths[k] in files
  {
    Lines(HeaderOf(id, |paths|)) + Chunks(sha, files, 0, paths)
  }

  lemma {:induction false} ChunksSnoc(sha: Bytes -> Digest, files: map<string, Bytes>, index: nat, paths: seq<string>)
    requires paths != [] && forall k :: 0 <= k < |paths| ==> paths[k] in files
    ensures var n := |paths| - 1;
            Chunks(sha, files, index, paths) ==
              Chunks(sha, files, index, paths[..n]) + Chunk(sha, index + n, paths[n], files[paths[n]])
    decreases |paths|
  {
    var n := |paths| - 1;
    var head, last := Chunk(sha, index, paths[0], files[paths[0]]), Chunk(sha, index + n, paths[n], files[paths[n]]);
    if n == 0 {
      assert paths[..0] == [] && paths[1..] == [];
      assert head + [] == head && [] + last == last;
    } else {
      var tail := paths[1..];
      ChunksSnoc(sha, files, index + 1, tail);
      var rest := Chunks(sha, files, index + 1, tail[..n - 1]);
      assert tail[n - 1] == paths[n] && tail[..n - 1] == paths[..n][1..];
      assert Chunks(sha, files, index + 1, tail) == rest + last;
      assert Chunks(sha, files, index, paths[..n]) == head + rest;
      Associates(head, rest, last);
    }
  }

  lemma Associates<T>(a: seq<T>, b: seq<T>, c: seq<T>)
    ensures a + b + c == a + (b + c)
  {
  }

  /** assemble_route_bundle; a missing source file raises. */
  method AssembleRouteBundle(
    sha: Bytes -> Digest, files: map<string, Bytes>, id: Identity, paths: seq<string>) returns (r: Option<Bytes>)
    ensures r.Some? <==> forall k :: 0 <= k < |paths| ==> paths[k] in files
    ensures r.Some? ==> r.value == Bundle(sha, files, id, paths)
  {
    var top := Lines(HeaderOf(id, |paths|));
    var bundle := top;
    for k := 0 to |paths|
      invariant forall j :: 0 <= j < k ==> paths[j] in files
      invariant bundle == top + Chunks(sha, files, 0, paths[..k])
    {
      if paths[k] !in files {
        return None;
      }
      ChunksSnoc(sha, files, 0, paths[..k + 1]);
      assert paths[..k + 1][..k] == paths[..k];
      var chunk := Chunk(sha, k, paths[k], files[paths[k]]);
      Associates(top, Chunks(sha, files, 0, paths[..k]), chunk);
      bundle := bundle + chunk;
    }
    assert paths[..|paths|] == paths;
    r := Some(bundle);
  }

  // ----- parsing

  /** s.partition("\n"), when there is a newline. */
  function Break(s: Bytes): Option<(Bytes, Bytes)> {
    if s == [] then None
    else if s[0] == '\n' then Some(([], s[1..]))
    else
      var r := Break(s[1..]);
      if r.None? then None else Some(([s[0]] + r.value.0, r.value.1))
  }

  lemma {:induction false} BreakExact(s: Bytes)
    ensures Break(s).None? <==> '\n' !in s
    ensures Break(s).Some? ==> s == Break(s).value.0 + "\n" + Break(s).value.1 && '\n' !in Break(s).value.0
  {
    if s == [] || s[0] == '\n' {
    } else {
      BreakExact(s[1..]);
      assert s == [s[0]] + s[1..];
    }
  }

  lemma {:induction false} BreakLine(line: Bytes, rest: Bytes)
    requires '\n' !in line
    ensures Break(line + "\n" + rest) == Some((line, rest))
  {
    var s := line + "\n" + rest;
    if line == [] {
      assert s[1..] == rest;
    } else {
      assert s[1..] == line[1..] + "\n" + rest;
      BreakLine(line[1..], rest);
      assert [line[0]] + line[1..] == line;
    }
  }

  /** payload.split("\n", n) when it yields n lines and a rest. */
  function TakeLines(s: Bytes, n: nat): Option<(seq<Bytes>, Bytes)>
    decreases n
  {
    if n == 0 then Some(([], s))
    else
      var b := Break(s);
      if b.None? then None
      else
        var r := TakeLines(b.value.1, n - 1);
        if r.None? then None else Some(([b.value.0] + r.value.0, r.value.1))
  }

  /** line.partition(": "). */
  function Partition(line: string): Option<(string, string)> {
    if |line| < 2 then None
    else if line[0] == ':' && line[1] == ' ' then Some(([], line[2..]))
    else
      var r := Partition(line[1..]);
      if r.None? then None else Some(([line[0]] + r.value.0, r.value.1))
  }

  function Fields(lines: seq<string>): Option<map<string, string>> {
    if lines == [] then Some(map[])
    else
      var before, field := Fields(lines[..|lines| - 1]), Partition(lines[|lines| - 1]);
      if before.None? || field.None? then None else Some(before.value[field.value.0 := field.value.1])
  }

  predicate AllDigits(s: string) {
    s != [] && forall k :: 0 <= k < |s| ==> IsDigit(s[k])
  }

  datatype Head = Head(index: nat, path: string, digest: string, size: nat)

  function After(prefix: string, s: string): Option<string> {
    if prefix <= s then Some(s[|prefix|..]) else None
  }

  /** SECTION_HEADER_RE: its seven fields are separated by single spaces and hold none. */
  function MatchHead(raw: string): Option<Head> {
    var t := Split(raw, ' ');
    if |t| == 7 && t[0] == "---" && t[1] == "noodles-bundle-section" && t[6] == "---" then
      var digest, size := After("sha256=", t[4]), After("bytes=", t[5]);
      if digest.Some? && size.Some? && AllDigits(t[2]) && IsPathText(t[3]) && IsHexDigest(digest.value)
        && AllDigits(size.value)
      then Some(Head(Value(t[2]), t[3], digest.value, Value(size.value)))
      else None
    else None
  }

  /** `\S+`. */
  predicate IsPathText(s: string) {
    s != [] && forall k :: 0 <= k < |s| ==> !IsSpace(s[k])
  }

  /** One framed section off the cursor: its header line, body and closing newline. */
  function TakeSection(cursor: Bytes, index: nat): Option<(Section, Bytes)> {
    var b := Break(cursor);
    if b.None? then None
    else
      var head, remainder := MatchHead(b.value.0), b.value.1;
      if head.None? || head.value.index != index then None
      else if |remainder| <= head.value.size || remainder[head.value.size] != '\n' then None
      else Some((Section(head.value.path, head.value.digest, remainder[..head.value.size]),
        remainder[head.value.size + 1..]))
  }

  lemma TakeSectionAdvances(cursor: Bytes, index: nat)
    ensures TakeSection(cursor, index).Some? ==> |TakeSection(cursor, index).value.1| < |cursor|
  {
    BreakExact(cursor);
  }

  function Sections(cursor: Bytes, index: nat): Option<seq<Section>>
    decreases |cursor|
  {
    if cursor == [] then Some([])
    else
      var first := TakeSection(cursor, index);
      if first.None? then None
      else
        TakeSectionAdvances(cursor, index);
        var rest := Sections(first.value.1, index + 1);
        if rest.None? then None else Some([first.value.0] + rest.value)
  }

  datatype Parsed = Parsed(header: map<string, string>, sections: seq<Section>)

  function Parse(payload: Bytes): Option<Parsed> {
    var top := TakeLines(payload, HEADER_LINES);
    if top.None? then None
    else
      var lines := top.value.0;
      if lines == [] then None
      else
        var fields := Fields(lines[1..]);
        var sections := Sections(top.value.1, 0);
        if fields.None? || sections.None? then None
        else Some(Parsed(map["version" := lines[0]] + fields.value, sections.value))
  }

  /** The cursor loop of _parse_route_bundle. */
  method ParseSections(body: Bytes) returns (r: Option<seq<Section>>)
    ensures r == Sections(body, 0)
  {
    var cursor, sections := body, [];
    PrependNothing(Sections(body, 0));
    while cursor != []
      invariant Sections(body, 0) == Prepend(sections, Sections(cursor, |sections|))
      decreases |cursor|
    {
      TakeSectionAdvances(cursor, |sections|);
      var first := TakeSection(cursor, |sections|);
      if first.None? {
        return None;
      }
      PrependMore(sections, first.value.0, Sections(first.value.1, |sections| + 1));
      sections, cursor := sections + [first.value.0], first.value.1;
    }
    assert sections + [] == sections;
    r := Some(sections);
  }

  function Prepend<T>(front: seq<T>, rest: Option<seq<T>>): Option<seq<T>> {
    if rest.None? then None else Some(front + rest.value)
  }

  lemma PrependNothing<T>(rest: Option<seq<T>>)
    ensures Prepend([], rest) == rest
  {
    if rest.Some? { assert [] + rest.value == rest.value; }
  }

  lemma PrependMore<T>(front: seq<T>, x: T, rest: Option<seq<T>>)
    ensures Prepend(front, Prepend([x], rest)) == Prepend(front + [x], rest)
  {
    if rest.Some? { Associates(front, [x], rest.value); }
  }

  /** _parse_route_bundle. */
  method ParseRouteBundle(payload: Bytes) returns (r: Option<Parsed>)
    ensures r == Parse(payload)
  {
    var top := TakeLines(payload, HEADER_LINES);
    if top.None? || top.value.0 == [] {
      return None;
    }
    var fields := Fields(top.value.0[1..]);
    if fields.None? {
      return None;
    }
    var sections := ParseSections(top.value.1);
    r := if sections.None? then None else Some(Parsed(map["version" := top.value.0[0]] + fields.value, sections.value));
  }

  // ----- checking

  datatype Fault = Unparseable | HeaderDiffers(key: string) | TraversalDiffers | NoPinnedFile(path: string)
                 | DigestDiffers(path: string) | BytesDiffer(path: string)

  datatype Report = Report(errors: seq<Fault>, fed: Option<Digest>, live: Option<Digest>)

  function Expected(id: Identity, count: nat): seq<(string, string)> {
    [("version", VERSION), ("route", id.route), ("provider", id.provider), ("commit", id.commit),
      ("sections", Decimal(count))]
  }

  function HeaderFaults(header: map<string, string>, expected: seq<(string, string)>): seq<Fault> {
    if expected == [] then []
    else
      var (key, value) := expected[0];
      (if key in header && header[key] == value then [] else [HeaderDiffers(key)]) + HeaderFaults(header, expected[1..])
  }

  function SectionFaults(sha: Bytes -> Digest, files: map<string, Bytes>, s: Section): seq<Fault> {
    if s.path !in files then [NoPinnedFile(s.path)]
    else
      (if s.digest != sha(files[s.path]) then [DigestDiffers(s.path)] else [])
      + (if s.body != files[s.path] then [BytesDiffer(s.path)] else [])
  }

  function AllSectionFaults(sha: Bytes -> Digest, files: map<string, Bytes>, sections: seq<Section>): seq<Fault> {
    if sections == [] then []
    else
      var n := |sections| - 1;
      AllSectionFaults(sha, files, sections[..n]) + SectionFaults(sha, files, sections[n])
  }

  function Live(files: map<string, Bytes>, sections: seq<Section>): seq<Bytes> {
    if sections == [] then []
    else
      var n := |sections| - 1;
      Live(files, sections[..n]) + (if sections[n].path in files then [files[sections[n].path]] else [])
  }

  function Concat(bs: seq<Bytes>): Bytes {
    if bs == [] then [] else bs[0] + Concat(bs[1..])
  }

  function Paths(sections: seq<Section>): seq<string> {
    seq(|sections|, k requires 0 <= k < |sections| => sections[k].path)
  }

  function Bodies(sections: seq<Section>): seq<Bytes> {
    seq(|sections|, k requires 0 <= k < |sections| => sections[k].body)
  }

  function Check(
    sha: Bytes -> Digest, files: map<string, Bytes>, id: Identity, expected: seq<string>, payload: Bytes): Report {
    var parsed := Parse(payload);
    if parsed.None? then Report([Unparseable], None, None)
    else
      var errors, sections := HeaderFaults(parsed.value.header, Expected(id, |expected|)), parsed.value.sections;
      if Paths(sections) != expected then Report(errors + [TraversalDiffers], None, None)
      else
        var live := Live(files, sections);
        Report(errors + AllSectionFaults(sha, files, sections), Some(sha(Concat(Bodies(sections)))),
               if |live| == |sections| then Some(sha(Concat(live))) else None)
  }

  /** The checks of the sections against their pinned files. */
  method CheckSections(
    sha: Bytes -> Digest, files: map<string, Bytes>,
    sections: seq<Section>) returns (errors: seq<Fault>, live: seq<Bytes>)
    ensures errors == AllSectionFaults(sha, files, sections) && live == Live(files, sections)
  {
    errors, live := [], [];
    for k := 0 to |sections|
      invariant live == Live(files, sections[..k]) && errors == AllSectionFaults(sha, files, sections[..k])
    {
      assert sections[..k + 1][..k] == sections[..k];
      errors := errors + SectionFaults(sha, files, sections[k]);
      if sections[k].path in files {
        live := live + [files[sections[k].path]];
      }
    }
    assert sections[..|sections|] == sections;
  }

  /** check_route_bundle. */
  method CheckRouteBundle(
    sha: Bytes -> Digest, files: map<string, Bytes>, id: Identity,
    expected: seq<string>, payload: Bytes) returns (r: Report)
    ensures r == Check(sha, files, id, expected, payload)
  {
    var parsed := ParseRouteBundle(payload);
    if parsed.None? {
      return Report([Unparseable], None, None);
    }
    var sections := parsed.value.sections;
    var errors := HeaderFaults(parsed.value.header, Expected(id, |expected|));
    if Paths(sections) != expected {
      return Report(errors + [TraversalDiffers], None, None);
    }
    var more, live := CheckSections(sha, files, sections);
    r := Report(errors + more, Some(sha(Concat(Bodies(sections)))),
      if |live| == |sections| then Some(sha(Concat(live))) else None);
  }
}
