/** The `META-INF/runtime-dependencies.txt` wire format: the build-time
    encoder of `GenerateDependencyManifestTask` and the run-time decoder
    (`readManifest`) that the generated Velocity utility class carries.

      DEP:<groupId>:<artifactId>:<version>
      REPO:<name>:<url>:<needsAuth>:<envPrefix>

    The decoder trims every line, skips blank and `#` lines and lines with
    an unknown prefix, and locates the REPO name at the first colon and the
    two trailing fields at the last two colons, so a URL may hold colons. */
module ManifestCodec {
  import opened Common
  import opened Text
  import opened Models

  /** A dependency coordinate as the decoder records it. */
  datatype Coordinate = Coordinate(groupId: string, artifactId: string, version: string)

  /** A repository as the decoder records it. */
  datatype ManifestRepository = ManifestRepository(name: string, url: string, needsAuth: bool, envPrefix: string)

  /** Everything the decoder collects, in file order. */
  datatype ManifestData = ManifestData(dependencies: seq<Coordinate>, repositories: seq<ManifestRepository>)

  const CentralName := "MavenCentral"
  const CentralUrl := "https://repo1.maven.org/maven2/"

  /** The record the always-written Maven Central line decodes to. */
  const CentralRecord := ManifestRepository(CentralName, CentralUrl, false, "")

  const HeaderLines: seq<string> := [
    "# Runtime dependencies manifest",
    "# Format: DEP:groupId:artifactId:version",
    "# Format: REPO:name:url:needsAuth:envPrefix",
    ""
  ]

  // ---------------------------------------------------------------------
  // Encoding (build time)

  /** The environment-variable prefix of a repository: its name upper-cased
      with `-` and `.` turned into `_`. */
  function EnvPrefix(name: string): (r: string)
    ensures |r| == |name|
    ensures forall i :: 0 <= i < |r| ==>
      r[i] == if name[i] == '-' || name[i] == '.' then '_' else AsciiUpper(name[i])
  {
    ReplaceChar(ReplaceChar(Upper(name), '-', '_'), '.', '_')
  }

  /** Kotlin's rendering of a Boolean in a string template. */
  function BoolText(b: bool): string {
    if b then "true" else "false"
  }

  /** A repository needs authentication when both credential properties are set. */
  predicate NeedsAuth(r: RepositoryInfo) {
    r.usernameProperty.Some? && r.passwordProperty.Some?
  }

  function RepositoryFields(name: string, url: string, auth: bool, env: string): string {
    "REPO:" + (name + ":" + url + ":" + BoolText(auth) + ":" + env)
  }

  /** The closing line every manifest carries. */
  const CentralLine := RepositoryFields(CentralName, CentralUrl, false, "")

  function DependencyLine(d: DependencyInfo): string {
    "DEP:" + (d.groupId + ":" + d.artifactId + ":" + d.version)
  }

  function RepositoryLine(r: RepositoryInfo): string {
    RepositoryFields(r.name, r.url, NeedsAuth(r), EnvPrefix(r.name))
  }

  function DependencyLines(deps: seq<DependencyInfo>): (r: seq<string>)
    ensures |r| == |deps|
    ensures forall i :: 0 <= i < |deps| ==> r[i] == DependencyLine(deps[i])
  {
    if deps == [] then [] else [DependencyLine(deps[0])] + DependencyLines(deps[1..])
  }

  /** The repositories the encoder writes: all but the Maven Central ones. */
  function NonCentral(repos: seq<RepositoryInfo>): (r: seq<RepositoryInfo>)
    ensures |r| <= |repos|
    ensures forall x :: x in r <==> x in repos && !x.isMavenCentral
  {
    if repos == [] then []
    else if repos[0].isMavenCentral then NonCentral(repos[1..])
    else [repos[0]] + NonCentral(repos[1..])
  }

  function RepositoryLines(repos: seq<RepositoryInfo>): (r: seq<string>)
    ensures |r| == |repos|
    ensures forall i :: 0 <= i < |repos| ==> r[i] == RepositoryLine(repos[i])
  {
    if repos == [] then [] else [RepositoryLine(repos[0])] + RepositoryLines(repos[1..])
  }

  /** The manifest's lines: three comments and a blank, one DEP line per
      dependency in list order, a blank, one REPO line per non-central
      repository in map order, and the Maven Central line last (the
      lemmas below place each group). */
  function EncodeLines(deps: seq<DependencyInfo>, repos: seq<RepositoryInfo>): (r: seq<string>)
    ensures |r| == |HeaderLines| + |deps| + 1 + |NonCentral(repos)| + 1
    ensures r[|r| - 1] == CentralLine
  {
    var h, d, rl := HeaderLines, DependencyLines(deps), RepositoryLines(NonCentral(repos));
    FiveParts(h, d, "", rl, CentralLine);
    h + d + [""] + rl + [CentralLine]
  }

  /** The manifest opens with the header comments and a blank line. */
  lemma EncodedHeader(deps: seq<DependencyInfo>, repos: seq<RepositoryInfo>)
    ensures EncodeLines(deps, repos)[..4] == HeaderLines
  {
    FiveParts(HeaderLines, DependencyLines(deps), "", RepositoryLines(NonCentral(repos)), CentralLine);
  }

  /** One DEP line per dependency, in list order, after the header, and a
      blank line after them. */
  lemma EncodedDependencies(deps: seq<DependencyInfo>, repos: seq<RepositoryInfo>)
    ensures forall i :: 0 <= i < |deps| ==> EncodeLines(deps, repos)[4 + i] == DependencyLine(deps[i])
    ensures EncodeLines(deps, repos)[4 + |deps|] == ""
  {
    FiveParts(HeaderLines, DependencyLines(deps), "", RepositoryLines(NonCentral(repos)), CentralLine);
  }

  /** One REPO line per non-central repository, in map order, after the
      blank line. */
  lemma EncodedRepositories(deps: seq<DependencyInfo>, repos: seq<RepositoryInfo>)
    ensures forall i :: 0 <= i < |NonCentral(repos)| ==>
      EncodeLines(deps, repos)[5 + |deps| + i] == RepositoryLine(NonCentral(repos)[i])
  {
    var nc := NonCentral(repos);
    FourthPart(HeaderLines, DependencyLines(deps), "", RepositoryLines(nc), CentralLine);
  }

  /** The elements of the fourth part of a five-part concatenation. */
  lemma FourthPart<T>(h: seq<T>, d: seq<T>, blank: T, rl: seq<T>, last: T)
    ensures forall i :: 0 <= i < |rl| ==> (h + d + [blank] + rl + [last])[|h| + |d| + 1 + i] == rl[i]
  {
    FiveParts(h, d, blank, rl, last);
  }

  /** Where each part of a five-part concatenation sits. */
  lemma FiveParts<T>(h: seq<T>, d: seq<T>, blank: T, rl: seq<T>, last: T)
    ensures var r := h + d + [blank] + rl + [last];
      && |r| == |h| + |d| + 1 + |rl| + 1
      && r[..|h|] == h
      && (forall i :: 0 <= i < |d| ==> r[|h| + i] == d[i])
      && r[|h| + |d|] == blank
      && (forall i :: 0 <= i < |rl| ==> r[|h| + |d| + 1 + i] == rl[i])
      && r[|r| - 1] == last
  {
  }

  /** Regrouping a five-part concatenation to the right. */
  lemma Regroup<T>(a: seq<T>, b: seq<T>, c: seq<T>, d: seq<T>, e: seq<T>)
    ensures a + b + c + d + e == a + (b + (c + (d + e)))
  {
  }

  /** Every dependency and every repository can be written and read back. */
  predicate Encodable(deps: seq<DependencyInfo>, repos: OrderedMap<string, RepositoryInfo>) {
    && (forall i :: 0 <= i < |deps| ==> EncodableDependency(deps[i]))
    && (forall i :: 0 <= i < |repos| ==> EncodableRepository(repos[i].1))
  }

  /** The manifest file's text: the lines joined with `\n`. When every
      field is free of line breaks and colons, reading it line by line
      gives back exactly the written lines. */
  function Encode(deps: seq<DependencyInfo>, repos: OrderedMap<string, RepositoryInfo>): (r: string)
    ensures Encodable(deps, repos) ==> ReadLines(r) == EncodeLines(deps, Values(repos))
  {
    var lines := EncodeLines(deps, Values(repos));
    var r := JoinLines(lines);
    if Encodable(deps, repos) then
      EncodedLinesSingle(deps, Values(repos));
      ReadJoinedLines(lines);
      r
    else r
  }

  /** Whatever is recorded, the text opens with the first header comment
      and ends with the Maven Central line, with no newline after it. */
  lemma EncodedFrame(deps: seq<DependencyInfo>, repos: OrderedMap<string, RepositoryInfo>)
    ensures StartsWith(Encode(deps, repos), HeaderLines[0] + "\n")
    ensures EndsWith(Encode(deps, repos), "\n" + CentralLine)
  {
    var lines := EncodeLines(deps, Values(repos));
    assert lines[0] == HeaderLines[0] by {
      EncodedHeader(deps, Values(repos));
    }
    JoinEnds(lines, '\n');
  }

  // ---------------------------------------------------------------------
  // Decoding (run time)

  /** What one manifest line contributes. */
  datatype LineRecord = Ignored | Dep(coordinate: Coordinate) | Repo(repository: ManifestRepository)

  /** Java's `Boolean.parseBoolean`: true exactly for "true" in any case. */
  predicate ParseBoolean(s: string): (r: bool)
    ensures r <==> |s| == 4 && forall k :: 0 <= k < 4 ==> AsciiLower(s[k]) == "true"[k]
  {
    EqualsIgnoreCase(s, "true")
  }

  /** The REPO rule on the text after `REPO:`. */
  function ParseRepository(content: string): LineRecord {
    var first := IndexOf(content, ':');
    if first < 0 then Ignored
    else
      var name := content[..first];
      var last := LastIndexOf(content, ':');
      var second := LastIndexBefore(content, ':', last);
      if second <= first then Repo(ManifestRepository(name, content[first + 1..], false, ""))
      else Repo(ManifestRepository(name, content[first + 1..second], ParseBoolean(content[second + 1..last]), content[last + 1..]))
  }

  /** The DEP rule on the text after `DEP:`: exactly three fields. */
  function ParseDependency(content: string): LineRecord {
    var parts := JavaSplit(content, ':');
    if |parts| == 3 then Dep(Coordinate(parts[0], parts[1], parts[2])) else Ignored
  }

  /** The decoder's rule for one line once trimmed. */
  function ParseTrimmed(line: string): LineRecord {
    if line == "" || StartsWith(line, "#") then Ignored
    else if StartsWith(line, "DEP:") then ParseDependency(line[4..])
    else if StartsWith(line, "REPO:") then ParseRepository(line[5..])
    else Ignored
  }

  /** The decoder's rule for one raw line: only a line whose trimmed text
      starts with `DEP:` or `REPO:` contributes, and blank and comment
      lines never do. */
  function ParseLine(raw: string): (r: LineRecord)
    ensures r.Dep? ==> StartsWith(JavaTrim(raw), "DEP:")
    ensures r.Repo? ==> StartsWith(JavaTrim(raw), "REPO:")
    ensures JavaTrim(raw) == "" || StartsWith(JavaTrim(raw), "#") ==> r == Ignored
  {
    ParseTrimmed(JavaTrim(raw))
  }

  /** One parsed line's contribution placed before the data that follows it. */
  function Add(record: LineRecord, data: ManifestData): ManifestData {
    match record
    case Ignored => data
    case Dep(c) => data.(dependencies := [c] + data.dependencies)
    case Repo(r) => data.(repositories := [r] + data.repositories)
  }

  /** What a run of parsed lines adds up to, in line order. */
  function Collect(records: seq<LineRecord>): (r: ManifestData)
    ensures forall c :: c in r.dependencies <==> Dep(c) in records
    ensures forall m :: m in r.repositories <==> Repo(m) in records
    ensures |r.dependencies| + |r.repositories| <= |records|
  {
    if records == [] then ManifestData([], [])
    else
      assert forall x :: x in records <==> x == records[0] || x in records[1..];
      Add(records[0], Collect(records[1..]))
  }

  function ParseAll(lines: seq<string>): (r: seq<LineRecord>)
    ensures |r| == |lines| && forall i :: 0 <= i < |lines| ==> r[i] == ParseLine(lines[i])
  {
    seq(|lines|, i requires 0 <= i < |lines| => ParseLine(lines[i]))
  }

  /** The decoder's loop over the lines it reads. */
  function DecodeLines(lines: seq<string>): ManifestData {
    Collect(ParseAll(lines))
  }

  /** Some line of the list parses to the record. */
  predicate SomeLineParsesTo(lines: seq<string>, x: LineRecord) {
    exists i :: 0 <= i < |lines| && ParseLine(lines[i]) == x
  }

  /** `readManifest` over the manifest's text: a coordinate or repository
      is decoded exactly when some line of the text parses to it, and each
      line contributes at most one record. */
  function Decode(text: string): (r: ManifestData)
    ensures forall c :: c in r.dependencies <==> SomeLineParsesTo(ReadLines(text), Dep(c))
    ensures forall m :: m in r.repositories <==> SomeLineParsesTo(ReadLines(text), Repo(m))
    ensures |r.dependencies| + |r.repositories| <= |ReadLines(text)|
  {
    var lines := ReadLines(text);
    ParsedRecords(lines);
    DecodeLines(lines)
  }

  lemma ParsedRecords(lines: seq<string>)
    ensures forall x :: x in ParseAll(lines) <==> SomeLineParsesTo(lines, x)
  {
    var records := ParseAll(lines);
    forall x | SomeLineParsesTo(lines, x)
      ensures x in records
    {
      var i :| 0 <= i < |lines| && ParseLine(lines[i]) == x;
      assert records[i] == x;
    }
  }

  /** `readManifest`: a missing resource gives an empty record set. */
  function ReadManifest(resource: Option<string>): (r: ManifestData)
    ensures resource.None? ==> r == ManifestData([], [])
  {
    match resource
    case None => ManifestData([], [])
    case Some(text) => Decode(text)
  }

  // ---------------------------------------------------------------------
  // Round trip

  /** A field the encoder can write and the decoder split back out. */
  predicate PlainField(s: string) {
    ':' !in s && NoLineBreak(s)
  }

  /** A dependency survives encoding: no colon or line break in its fields
      and a version that neither is empty (Java's split would drop it) nor
      ends in white space (the line is trimmed). */
  predicate EncodableDependency(d: DependencyInfo) {
    && PlainField(d.groupId) && PlainField(d.artifactId) && PlainField(d.version)
    && d.version != [] && !JavaSpace(d.version[|d.version| - 1])
  }

  /** A repository survives encoding: a name without colon or line break
      that does not end in white space, and a URL without line break. */
  predicate EncodableRepository(r: RepositoryInfo) {
    && PlainField(r.name)
    && (r.name == [] || !JavaSpace(r.name[|r.name| - 1]))
    && NoLineBreak(r.url)
  }

  function Coordinates(deps: seq<DependencyInfo>): (r: seq<Coordinate>)
    ensures |r| == |deps|
    ensures forall i :: 0 <= i < |deps| ==>
      r[i] == Coordinate(deps[i].groupId, deps[i].artifactId, deps[i].version)
  {
    if deps == [] then []
    else [Coordinate(deps[0].groupId, deps[0].artifactId, deps[0].version)] + Coordinates(deps[1..])
  }

  /** What the decoder should recover for a written repository. */
  function Recorded(r: RepositoryInfo): ManifestRepository {
    ManifestRepository(r.name, r.url, NeedsAuth(r), EnvPrefix(r.name))
  }

  function RecordedAll(repos: seq<RepositoryInfo>): (r: seq<ManifestRepository>)
    ensures |r| == |repos|
    ensures forall i :: 0 <= i < |repos| ==> r[i] == Recorded(repos[i])
  {
    if repos == [] then [] else [Recorded(repos[0])] + RecordedAll(repos[1..])
  }

  function Append(a: ManifestData, b: ManifestData): ManifestData {
    ManifestData(a.dependencies + b.dependencies, a.repositories + b.repositories)
  }

  /** Collecting distributes over concatenated record lists. */
  lemma {:induction false} CollectAppend(a: seq<LineRecord>, b: seq<LineRecord>)
    ensures Collect(a + b) == Append(Collect(a), Collect(b))
  {
    if a != [] {
      assert (a + b)[0] == a[0];
      assert (a + b)[1..] == a[1..] + b;
      CollectAppend(a[1..], b);
      var d, e := Collect(a[1..]), Collect(b);

      match a[0]
      case Ignored =>
      case Dep(c) =>
        assert [c] + d.dependencies + e.dependencies == [c] + (d.dependencies + e.dependencies);
      case Repo(r) =>
        assert [r] + d.repositories + e.repositories == [r] + (d.repositories + e.repositories);
    } else {
      assert a + b == b;
      var e := Collect(b);
      assert [] + e.dependencies == e.dependencies && [] + e.repositories == e.repositories;
    }
  }

  /** Decoding distributes over concatenated line lists. */
  lemma DecodeLinesAppend(a: seq<string>, b: seq<string>)
    ensures DecodeLines(a + b) == Append(DecodeLines(a), DecodeLines(b))
  {
    ParseAllAppend(a, b);
    CollectAppend(ParseAll(a), ParseAll(b));
  }

  lemma ParseAllAppend(a: seq<string>, b: seq<string>)
    ensures ParseAll(a + b) == ParseAll(a) + ParseAll(b)
  {
    MapAppend(a, b, ParseLine);
  }

  /** Records the decoder ignores contribute nothing. */
  lemma {:induction false} CollectIgnored(records: seq<LineRecord>)
    requires forall i :: 0 <= i < |records| ==> records[i] == Ignored
    ensures Collect(records) == ManifestData([], [])
  {
    if records != [] {
      CollectIgnored(records[1..]);
    }
  }

  lemma DecodeIgnored(lines: seq<string>)
    requires forall i :: 0 <= i < |lines| ==> ParseLine(lines[i]) == Ignored
    ensures DecodeLines(lines) == ManifestData([], [])
  {
    CollectIgnored(ParseAll(lines));
  }

  /** Java's split on a line of three colon-free fields, the last not empty. */
  lemma SplitThree(g: string, a: string, v: string)
    requires ':' !in g && ':' !in a && ':' !in v && v != []
    ensures JavaSplit(g + ":" + a + ":" + v, ':') == [g, a, v]
  {
    var parts := [g, a, v];
    var s := g + ":" + a + ":" + v;
    assert JoinWith(parts, ':') == s by {
      assert parts[1..] == [a, v];
      assert parts[1..][1..] == [v];
      assert JoinWith([v], ':') == v;
      assert JoinWith([a, v], ':') == a + [':'] + v;
    }
    SplitJoin(parts, ':');
    assert s[|g|] == ':';
    assert DropTrailingEmpty(parts) == parts;
  }

  /** A line starting `DEP:` with no white space at its end is handed to
      the DEP rule whole. */
  lemma ParseDependencyPrefixed(content: string)
    requires content != [] && !JavaSpace(content[|content| - 1])
    ensures ParseLine("DEP:" + content) == ParseDependency(content)
  {
    var line := "DEP:" + content;
    JavaTrimIdentity(line);
    assert line[..1] != "#";
    assert line[..4] == "DEP:";
    assert line[4..] == content;
  }

  /** A line starting `REPO:` with no white space at its end is handed to
      the REPO rule whole. */
  lemma ParseRepositoryPrefixed(content: string)
    requires content != [] && !JavaSpace(content[|content| - 1])
    ensures ParseLine("REPO:" + content) == ParseRepository(content)
  {
    var line := "REPO:" + content;
    JavaTrimIdentity(line);
    assert line[..1] != "#";
    assert line[..4] != "DEP:";
    assert line[..5] == "REPO:";
    assert line[5..] == content;
  }

  /** A DEP line written for an encodable dependency parses back to it. */
  lemma ParseDependencyLine(d: DependencyInfo)
    requires EncodableDependency(d)
    ensures ParseLine(DependencyLine(d)) == Dep(Coordinate(d.groupId, d.artifactId, d.version))
  {
    var content := d.groupId + ":" + d.artifactId + ":" + d.version;
    assert content[|content| - 1] == d.version[|d.version| - 1];
    ParseDependencyPrefixed(content);
    SplitThree(d.groupId, d.artifactId, d.version);
  }

  /** The EnvPrefix of a plain name is itself plain and keeps a
      non-white-space last character. */
  lemma EnvPrefixPlain(name: string)
    requires PlainField(name)
    ensures PlainField(EnvPrefix(name))
    ensures name != [] && !JavaSpace(name[|name| - 1]) ==> !JavaSpace(EnvPrefix(name)[|name| - 1])
  {
    var e := EnvPrefix(name);
    forall i | 0 <= i < |e|
      ensures e[i] != ':' && !LineBreak(e[i])
    {
      assert name[i] in name;
    }
  }

  /** Where the decoder finds its three colons in the text after `REPO:`. */
  lemma RepositoryColons(name: string, url: string, b: string, env: string)
    requires ':' !in name && ':' !in env && ':' !in b
    ensures var content := name + ":" + url + ":" + b + ":" + env;
      && IndexOf(content, ':') == |name|
      && LastIndexOf(content, ':') == |name| + |url| + |b| + 2
      && LastIndexBefore(content, ':', |name| + |url| + |b| + 2) == |name| + |url| + 1
  {
    FirstColon(name, url + ":" + b + ":" + env);
    assert name + ":" + (url + ":" + b + ":" + env) == name + ":" + url + ":" + b + ":" + env;
    LastColon(name + ":" + url + ":" + b, env);
    assert name + ":" + url + ":" + b + ":" + env == (name + ":" + url + ":" + b) + ":" + env;
    SecondColon(name + ":" + url, b, env);
    assert (name + ":" + url) + ":" + b + ":" + env == name + ":" + url + ":" + b + ":" + env;
  }

  lemma FirstColon(name: string, rest: string)
    requires ':' !in name
    ensures IndexOf(name + ":" + rest, ':') == |name|
  {
    var content := name + ":" + rest;
    assert content[..|name|] == name;
    IndexOfAt(content, ':', |name|);
  }

  lemma LastColon(front: string, env: string)
    requires ':' !in env
    ensures LastIndexOf(front + ":" + env, ':') == |front|
  {
    var content := front + ":" + env;
    forall t | |front| < t < |content|
      ensures content[t] != ':'
    {
      assert content[t] == env[t - |front| - 1];
    }
    LastIndexBeforeAt(content, ':', |content|, |front|);
  }

  lemma SecondColon(front: string, b: string, env: string)
    requires ':' !in b
    ensures LastIndexBefore(front + ":" + b + ":" + env, ':', |front| + 1 + |b|) == |front|
  {
    var content := front + ":" + b + ":" + env;
    forall t | |front| < t < |front| + 1 + |b|
      ensures content[t] != ':'
    {
      assert content[t] == b[t - |front| - 1];
    }
    LastIndexBeforeAt(content, ':', |front| + 1 + |b|, |front|);
  }

  /** The text after `REPO:` splits back into its four fields when the name
      and the environment prefix hold no colon. */
  lemma ParseRepositoryContent(name: string, url: string, b: string, env: string)
    requires ':' !in name && ':' !in env && ':' !in b
    ensures ParseRepository(name + ":" + url + ":" + b + ":" + env) == Repo(ManifestRepository(name, url, ParseBoolean(b), env))
  {
    var content := name + ":" + url + ":" + b + ":" + env;
    var second := |name| + 1 + |url|;
    var last := second + 1 + |b|;
    RepositoryColons(name, url, b, env);
    ParseRepositoryAt(content, |name|, second, last);
    FieldsOfContent(name, url, b, env);
    var n1, u1, b1, e1 := content[..|name|], content[|name| + 1..second], content[second + 1..last], content[last + 1..];
    assert ParseRepository(content) == Repo(ManifestRepository(n1, u1, ParseBoolean(b1), e1));
    SameRecord(n1, u1, b1, e1, name, url, b, env);
  }

  lemma SameRecord(n1: string, u1: string, b1: string, e1: string, n2: string, u2: string, b2: string, e2: string)
    requires n1 == n2 && u1 == u2 && b1 == b2 && e1 == e2
    ensures Repo(ManifestRepository(n1, u1, ParseBoolean(b1), e1)) == Repo(ManifestRepository(n2, u2, ParseBoolean(b2), e2))
  {
  }

  /** The REPO rule once the three colons are located. */
  lemma ParseRepositoryAt(content: string, first: nat, second: nat, last: nat)
    requires first < second < last < |content|
    requires IndexOf(content, ':') == first
    requires LastIndexOf(content, ':') == last
    requires LastIndexBefore(content, ':', last) == second
    ensures ParseRepository(content) ==
      Repo(ManifestRepository(content[..first], content[first + 1..second], ParseBoolean(content[second + 1..last]), content[last + 1..]))
  {
  }

  lemma FieldsOfContent(name: string, url: string, b: string, env: string)
    ensures var content := name + ":" + url + ":" + b + ":" + env;
      var second := |name| + 1 + |url|;
      var last := second + 1 + |b|;
      && content[..|name|] == name
      && content[|name| + 1..second] == url
      && content[second + 1..last] == b
      && content[last + 1..] == env
  {
  }

  lemma ParseBooleanText(auth: bool)
    ensures ParseBoolean(BoolText(auth)) == auth
    ensures ':' !in BoolText(auth)
  {
    if !auth {
      assert Lower("false")[0] != Lower("true")[0];
    }
  }

  /** A REPO line with a colon-free name and environment prefix parses back
      to its four fields, whatever colons the URL holds. */
  lemma ParseRepositoryFields(name: string, url: string, auth: bool, env: string)
    requires ':' !in name && ':' !in env
    requires env == [] || !JavaSpace(env[|env| - 1])
    ensures ParseLine(RepositoryFields(name, url, auth, env)) == Repo(ManifestRepository(name, url, auth, env))
  {
    var b := BoolText(auth);
    var content := name + ":" + url + ":" + b + ":" + env;
    assert content[|content| - 1] == if env == [] then ':' else env[|env| - 1];
    ParseRepositoryPrefixed(content);
    ParseBooleanText(auth);
    ParseRepositoryContent(name, url, b, env);
  }

  lemma ParseRepositoryLine(r: RepositoryInfo)
    requires EncodableRepository(r)
    ensures ParseLine(RepositoryLine(r)) == Repo(Recorded(r))
  {
    EnvPrefixPlain(r.name);
    ParseRepositoryFields(r.name, r.url, NeedsAuth(r), EnvPrefix(r.name));
  }

  lemma {:induction false} CollectDependencies(records: seq<LineRecord>, deps: seq<DependencyInfo>)
    requires |records| == |deps|
    requires forall i :: 0 <= i < |deps| ==>
      records[i] == Dep(Coordinate(deps[i].groupId, deps[i].artifactId, deps[i].version))
    ensures Collect(records) == ManifestData(Coordinates(deps), [])
  {
    if deps != [] {
      CollectDependencies(records[1..], deps[1..]);
    }
  }

  lemma DecodeDependencyLines(deps: seq<DependencyInfo>)
    requires forall i :: 0 <= i < |deps| ==> EncodableDependency(deps[i])
    ensures DecodeLines(DependencyLines(deps)) == ManifestData(Coordinates(deps), [])
  {
    forall i | 0 <= i < |deps|
      ensures ParseLine(DependencyLines(deps)[i]) == Dep(Coordinate(deps[i].groupId, deps[i].artifactId, deps[i].version))
    {
      ParseDependencyLine(deps[i]);
    }
    CollectDependencies(ParseAll(DependencyLines(deps)), deps);
  }

  lemma {:induction false} CollectRepositories(records: seq<LineRecord>, repos: seq<RepositoryInfo>)
    requires |records| == |repos|
    requires forall i :: 0 <= i < |repos| ==> records[i] == Repo(Recorded(repos[i]))
    ensures Collect(records) == ManifestData([], RecordedAll(repos))
  {
    if repos != [] {
      CollectRepositories(records[1..], repos[1..]);
    }
  }

  lemma DecodeRepositoryLines(repos: seq<RepositoryInfo>)
    requires forall i :: 0 <= i < |repos| ==> EncodableRepository(repos[i])
    ensures DecodeLines(RepositoryLines(repos)) == ManifestData([], RecordedAll(repos))
  {
    forall i | 0 <= i < |repos|
      ensures ParseLine(RepositoryLines(repos)[i]) == Repo(Recorded(repos[i]))
    {
      ParseRepositoryLine(repos[i]);
    }
    CollectRepositories(ParseAll(RepositoryLines(repos)), repos);
  }

  lemma ParseHeaderLine(h: string)
    requires h in HeaderLines
    ensures ParseLine(h) == Ignored
  {
    if h != "" {
      JavaTrimIdentity(h);
      assert h[..1] == "#";
    }
  }

  lemma DecodeHeader()
    ensures DecodeLines(HeaderLines) == ManifestData([], [])
    ensures DecodeLines([""]) == ManifestData([], [])
  {
    HeaderIgnored();
    DecodeIgnored(HeaderLines);
    BlankIgnored();
  }

  lemma HeaderIgnored()
    ensures forall i :: 0 <= i < |HeaderLines| ==> ParseLine(HeaderLines[i]) == Ignored
  {
    forall i | 0 <= i < |HeaderLines|
      ensures ParseLine(HeaderLines[i]) == Ignored
    {
      ParseHeaderLine(HeaderLines[i]);
    }
  }

  lemma BlankIgnored()
    ensures DecodeLines([""]) == ManifestData([], [])
  {
    ParseHeaderLine("");
    DecodeIgnored([""]);
  }

  /** No line of the list holds a line terminator. */
  predicate SingleLines(lines: seq<string>) {
    forall i :: 0 <= i < |lines| ==> NoLineBreak(lines[i])
  }

  /** Joining line-break-free pieces gives a line-break-free text. */
  lemma SingleConcat(a: string, b: string)
    requires NoLineBreak(a) && NoLineBreak(b)
    ensures NoLineBreak(a + b)
  {
  }

  lemma DependencyLineSingle(d: DependencyInfo)
    requires EncodableDependency(d)
    ensures NoLineBreak(DependencyLine(d))
  {
    SingleConcat(d.groupId, ":");
    SingleConcat(d.groupId + ":", d.artifactId);
    SingleConcat(d.groupId + ":" + d.artifactId, ":");
    SingleConcat(d.groupId + ":" + d.artifactId + ":", d.version);
    SingleConcat("DEP:", d.groupId + ":" + d.artifactId + ":" + d.version);
  }

  lemma DependencyLinesSingle(deps: seq<DependencyInfo>)
    requires forall i :: 0 <= i < |deps| ==> EncodableDependency(deps[i])
    ensures SingleLines(DependencyLines(deps))
  {
    forall i | 0 <= i < |deps|
      ensures NoLineBreak(DependencyLines(deps)[i])
    {
      DependencyLineSingle(deps[i]);
    }
  }

  lemma FieldsSingle(name: string, url: string, b: string, env: string)
    requires NoLineBreak(name) && NoLineBreak(url) && NoLineBreak(b) && NoLineBreak(env)
    ensures NoLineBreak("REPO:" + (name + ":" + url + ":" + b + ":" + env))
  {
    SingleConcat(name, ":");
    SingleConcat(name + ":", url);
    SingleConcat(name + ":" + url, ":");
    SingleConcat(name + ":" + url + ":", b);
    SingleConcat(name + ":" + url + ":" + b, ":");
    SingleConcat(name + ":" + url + ":" + b + ":", env);
    SingleConcat("REPO:", name + ":" + url + ":" + b + ":" + env);
  }

  lemma RepositoryLineSingle(r: RepositoryInfo)
    requires EncodableRepository(r)
    ensures NoLineBreak(RepositoryLine(r))
  {
    EnvPrefixPlain(r.name);
    FieldsSingle(r.name, r.url, BoolText(NeedsAuth(r)), EnvPrefix(r.name));
  }

  lemma RepositoryLinesSingle(repos: seq<RepositoryInfo>)
    requires forall i :: 0 <= i < |repos| ==> EncodableRepository(repos[i])
    ensures SingleLines(RepositoryLines(repos))
  {
    forall i | 0 <= i < |repos|
      ensures NoLineBreak(RepositoryLines(repos)[i])
    {
      RepositoryLineSingle(repos[i]);
    }
  }

  lemma HeaderSingle()
    ensures SingleLines(HeaderLines)
  {
    TitleSingle();
    DependencyFormatSingle();
    RepositoryFormatSingle();
  }

  lemma TitleSingle()
    ensures NoLineBreak(HeaderLines[0])
  {
    var s := HeaderLines[0];
    forall i | 0 <= i < |s| ensures !LineBreak(s[i]) { }
  }

  lemma DependencyFormatSingle()
    ensures NoLineBreak(HeaderLines[1])
  {
    var s := HeaderLines[1];
    forall i | 0 <= i < |s| ensures !LineBreak(s[i]) { }
  }

  lemma RepositoryFormatSingle()
    ensures NoLineBreak(HeaderLines[2])
  {
    var s := HeaderLines[2];
    forall i | 0 <= i < |s| ensures !LineBreak(s[i]) { }
  }

  lemma CentralSingle()
    ensures SingleLines([CentralLine])
  {
    forall i | 0 <= i < |CentralName| ensures !LineBreak(CentralName[i]) { }
    forall i | 0 <= i < |CentralUrl| ensures !LineBreak(CentralUrl[i]) { }
    FieldsSingle(CentralName, CentralUrl, "false", "");
  }

  /** A one-line manifest holds what that line contributes. */
  lemma DecodeOne(line: string)
    ensures DecodeLines([line]) == Add(ParseLine(line), ManifestData([], []))
  {
    var rs := ParseAll([line]);
    assert rs == [ParseLine(line)];
    assert rs[1..] == [];
    assert Collect(rs) == Add(rs[0], Collect(rs[1..]));
  }

  lemma EncodeLinesShape(deps: seq<DependencyInfo>, repos: seq<RepositoryInfo>)
    ensures EncodeLines(deps, repos) ==
      HeaderLines + (DependencyLines(deps) + ([""] + (RepositoryLines(NonCentral(repos)) + [CentralLine])))
  {
    Regroup(HeaderLines, DependencyLines(deps), [""], RepositoryLines(NonCentral(repos)), [CentralLine]);
  }

  lemma CentralParses()
    ensures ParseLine(CentralLine) == Repo(CentralRecord)
  {
    assert ':' !in CentralName;
    ParseRepositoryFields(CentralName, CentralUrl, false, "");
  }

  lemma CentralDecodes()
    ensures DecodeLines([CentralLine]) == ManifestData([], [CentralRecord])
  {
    CentralParses();
    DecodeOne(CentralLine);
  }

  /** The lines the encoder writes for encodable records hold no line
      terminator, and the last one is not empty. */
  lemma EncodedLinesSingle(deps: seq<DependencyInfo>, repos: seq<RepositoryInfo>)
    requires forall i :: 0 <= i < |deps| ==> EncodableDependency(deps[i])
    requires forall i :: 0 <= i < |repos| ==> EncodableRepository(repos[i])
    ensures SingleLines(EncodeLines(deps, repos))
  {
    var nc := NonCentral(repos);
    NonCentralEncodable(repos);
    DependencyLinesSingle(deps);
    RepositoryLinesSingle(nc);
    HeaderSingle();
    CentralSingle();
    EncodeLinesShape(deps, repos);
    assert SingleLines([""]);
    SingleLinesAppend(RepositoryLines(nc), [CentralLine]);
    SingleLinesAppend([""], RepositoryLines(nc) + [CentralLine]);
    SingleLinesAppend(DependencyLines(deps), [""] + (RepositoryLines(nc) + [CentralLine]));
    SingleLinesAppend(HeaderLines, DependencyLines(deps) + ([""] + (RepositoryLines(nc) + [CentralLine])));
  }

  lemma SingleLinesAppend(a: seq<string>, b: seq<string>)
    requires SingleLines(a) && SingleLines(b)
    ensures SingleLines(a + b)
  {
    forall i | 0 <= i < |a + b|
      ensures NoLineBreak((a + b)[i])
    {
      if i >= |a| {
        assert (a + b)[i] == b[i - |a|];
      }
    }
  }

  /** The repository lines and the closing Maven Central line decode to
      the recorded repositories followed by the Maven Central record. */
  lemma DecodeRepositorySection(repos: seq<RepositoryInfo>)
    requires forall i :: 0 <= i < |repos| ==> EncodableRepository(repos[i])
    ensures DecodeLines(RepositoryLines(repos) + [CentralLine]) ==
      ManifestData([], RecordedAll(repos) + [CentralRecord])
  {
    DecodeLinesAppend(RepositoryLines(repos), [CentralLine]);
    DecodeRepositoryLines(repos);
    CentralDecodes();
    var none: seq<Coordinate> := [];
    assert none + none == none;
  }

  /** Decoding the body of a manifest: dependency lines, a blank line,
      repository lines and the closing Maven Central line. */
  lemma DecodeBody(deps: seq<DependencyInfo>, repos: seq<RepositoryInfo>)
    requires forall i :: 0 <= i < |deps| ==> EncodableDependency(deps[i])
    requires forall i :: 0 <= i < |repos| ==> EncodableRepository(repos[i])
    ensures DecodeLines(DependencyLines(deps) + ([""] + (RepositoryLines(repos) + [CentralLine]))) ==
      ManifestData(Coordinates(deps), RecordedAll(repos) + [CentralRecord])
  {
    var tail := RepositoryLines(repos) + [CentralLine];
    DecodeLinesAppend(DependencyLines(deps), [""] + tail);
    DecodeLinesAppend([""], tail);
    DecodeHeader();
    DecodeDependencyLines(deps);
    DecodeRepositorySection(repos);
    var rs := RecordedAll(repos) + [CentralRecord];
    assert [] + rs == rs;
    assert Coordinates(deps) + ([] + []) == Coordinates(deps);
  }

  /** The encoder's lines decode, group by group, to the expected records. */
  lemma DecodeEncodedLines(deps: seq<DependencyInfo>, repos: seq<RepositoryInfo>)
    requires forall i :: 0 <= i < |deps| ==> EncodableDependency(deps[i])
    requires forall i :: 0 <= i < |repos| ==> EncodableRepository(repos[i])
    ensures DecodeLines(EncodeLines(deps, repos)) ==
      ManifestData(Coordinates(deps), RecordedAll(NonCentral(repos)) + [CentralRecord])
  {
    var nc := NonCentral(repos);
    NonCentralEncodable(repos);
    var body := DependencyLines(deps) + ([""] + (RepositoryLines(nc) + [CentralLine]));
    EncodeLinesShape(deps, repos);
    DecodeHeader();
    DecodeAfterNothing(HeaderLines, body);
    DecodeBody(deps, nc);
  }

  lemma NonCentralEncodable(repos: seq<RepositoryInfo>)
    requires forall i :: 0 <= i < |repos| ==> EncodableRepository(repos[i])
    ensures forall i :: 0 <= i < |NonCentral(repos)| ==> EncodableRepository(NonCentral(repos)[i])
  {
    var nc := NonCentral(repos);
    forall i | 0 <= i < |nc|
      ensures EncodableRepository(nc[i])
    {
      assert nc[i] in repos;
    }
  }

  /** Lines that contribute nothing leave the decoding of what follows. */
  lemma DecodeAfterNothing(a: seq<string>, b: seq<string>)
    requires DecodeLines(a) == ManifestData([], [])
    ensures DecodeLines(a + b) == DecodeLines(b)
  {
    DecodeLinesAppend(a, b);
    var d := DecodeLines(b);
    assert [] + d.dependencies == d.dependencies && [] + d.repositories == d.repositories;
  }

  /** Decoding the encoder's output gives back every dependency coordinate
      in order, every non-central repository in map order with its
      authentication flag and environment prefix, and the Maven Central
      record last. */
  lemma DecodeEncode(deps: seq<DependencyInfo>, repos: OrderedMap<string, RepositoryInfo>)
    requires forall i :: 0 <= i < |deps| ==> EncodableDependency(deps[i])
    requires forall i :: 0 <= i < |repos| ==> EncodableRepository(repos[i].1)
    ensures Decode(Encode(deps, repos)) ==
      ManifestData(Coordinates(deps), RecordedAll(NonCentral(Values(repos))) + [CentralRecord])
  {
    var vs := Values(repos);
    EncodedLinesSingle(deps, vs);
    ReadJoinedLines(EncodeLines(deps, vs));
    DecodeEncodedLines(deps, vs);
  }

  // ---------------------------------------------------------------------
  // The decoder's edge cases

  /** Every decoded dependency field and every decoded repository name and
      environment prefix is free of colons: the name is the text before the
      first colon and the prefix the text after the last one. */
  lemma DecodedFieldsColonFree(raw: string)
    ensures ParseLine(raw).Dep? ==>
      var c := ParseLine(raw).coordinate;
      ':' !in c.groupId && ':' !in c.artifactId && ':' !in c.version
    ensures ParseLine(raw).Repo? ==>
      ':' !in ParseLine(raw).repository.name && ':' !in ParseLine(raw).repository.envPrefix
  {
    var line := JavaTrim(raw);
    if line != "" && !StartsWith(line, "#") {
      if StartsWith(line, "DEP:") {
        DependencyFieldsColonFree(line[4..]);
      } else if StartsWith(line, "REPO:") {
        RepositoryFieldsColonFree(line[5..]);
      }
    }
  }

  lemma DependencyFieldsColonFree(content: string)
    ensures ParseDependency(content).Dep? ==>
      var c := ParseDependency(content).coordinate;
      ':' !in c.groupId && ':' !in c.artifactId && ':' !in c.version
  {
    if ':' in content {
      var all := SplitAll(content, ':');
      SplitAllFieldsFree(content, ':');
      var parts := DropTrailingEmpty(all);
      if |parts| == 3 {
        assert parts[0] == all[0] && parts[1] == all[1] && parts[2] == all[2];
      }
    }
  }

  lemma RepositoryFieldsColonFree(content: string)
    ensures ParseRepository(content).Repo? ==>
      ':' !in ParseRepository(content).repository.name && ':' !in ParseRepository(content).repository.envPrefix
  {
    var first := IndexOf(content, ':');
    if first >= 0 {
      var last := LastIndexOf(content, ':');
      var second := LastIndexBefore(content, ':', last);
      if second > first {
        var env := content[last + 1..];
        assert forall t :: 0 <= t < |env| ==> env[t] == content[last + 1 + t];
      }
    }
  }

  /** A REPO line that stops after the URL decodes to a repository without
      authentication and with an empty environment prefix; the URL may keep
      one colon of its own, as a scheme separator does. */
  lemma ShortRepositoryLine(name: string, url: string)
    requires ':' !in name
    requires forall i, j :: 0 <= i < j < |url| && url[i] == ':' ==> url[j] != ':'
    ensures ParseRepository(name + ":" + url) == Repo(ManifestRepository(name, url, false, ""))
  {
    var content := name + ":" + url;
    assert content[..|name|] == name;
    IndexOfAt(content, ':', |name|);
    var last := LastIndexOf(content, ':');
    assert |name| <= last;
    assert forall t :: |name| < t < |content| ==> content[t] == url[t - |name| - 1];
    assert content[|name| + 1..] == url;
  }

  /** A DEP line needs exactly three fields after Java's split: two fields
      are too few, and so is `g:a:` because the trailing empty field is
      dropped. */
  lemma DependencyNeedsThreeFields(g: string, a: string)
    requires ':' !in g && ':' !in a
    ensures ParseDependency(g + ":" + a) == Ignored
    ensures ParseDependency(g + ":" + a + ":") == Ignored
  {
    var two := g + ":" + a;
    assert two == JoinWith([g, a], ':') by {
      assert [g, a][1..] == [a];
    }
    SplitJoin([g, a], ':');
    assert two[|g|] == ':';
    var three := g + ":" + a + ":";
    assert three == JoinWith([g, a, ""], ':') by {
      assert [g, a, ""][1..] == [a, ""];
      assert [a, ""][1..] == [""];
      assert JoinWith([""], ':') == "";
      assert JoinWith([a, ""], ':') == a + [':'] + "";
    }
    SplitJoin([g, a, ""], ':');
    assert three[|g|] == ':';
    assert |DropTrailingEmpty([g, a, ""])| <= 2;
  }

  /** Blank lines, comments and lines with any other prefix add nothing. */
  lemma IgnoredLines(raw: string)
    requires var line := JavaTrim(raw);
      line == "" || StartsWith(line, "#") || (!StartsWith(line, "DEP:") && !StartsWith(line, "REPO:"))
    ensures ParseLine(raw) == Ignored
  {
  }

  /** A repository name ending in white space is why the round trip asks
      for names that do not. For a name such as `a `, the environment
      prefix `A ` is written last on the line, the decoder's trim of the
      line takes its space away, and the record read back carries `A`:
      not the record written. */
  lemma TrailingSpaceNameLosesPrefix(r: RepositoryInfo)
    requires PlainField(r.name) && NoLineBreak(r.url)
    requires |r.name| >= 2 && r.name[|r.name| - 1] == ' ' && !JavaSpace(r.name[|r.name| - 2])
    ensures ParseLine(RepositoryLine(r)) ==
      Repo(ManifestRepository(r.name, r.url, NeedsAuth(r), EnvPrefix(r.name)[..|r.name| - 1]))
    ensures ParseLine(RepositoryLine(r)) != Repo(Recorded(r))
  {
    var n := r.name;
    var e0 := EnvPrefix(n)[..|n| - 1];
    SpacedNamePrefix(n);
    var t := RepositoryFields(n, r.url, NeedsAuth(r), e0);
    var line := RepositoryLine(r);
    assert line == t + " " by {
      RepositoryFieldsSnoc(n, r.url, NeedsAuth(r), e0, ' ');
    }
    assert ParseLine(line) == ParseLine(t) by {
      assert t[0] == 'R' && t[|t| - 1] == e0[|e0| - 1];
      TrimTrailingSpace(t);
    }
    ParseRepositoryFields(n, r.url, NeedsAuth(r), e0);
    assert |Recorded(r).envPrefix| != |e0|;
  }

  /** The prefix of a name ending in one space is that of the name without
      it, followed by the space. */
  lemma SpacedNamePrefix(n: string)
    requires PlainField(n) && |n| >= 2 && n[|n| - 1] == ' ' && !JavaSpace(n[|n| - 2])
    ensures var e0 := EnvPrefix(n)[..|n| - 1];
      && EnvPrefix(n) == e0 + " " && e0 != [] && ':' !in e0 && !JavaSpace(e0[|e0| - 1])
  {
    var e0 := EnvPrefix(n)[..|n| - 1];
    assert e0 == EnvPrefix(n[..|n| - 1]);
    assert PlainField(n[..|n| - 1]) by {
      assert forall c :: c in n[..|n| - 1] ==> c in n;
    }
    EnvPrefixPlain(n[..|n| - 1]);
  }

  lemma TrimTrailingSpace(t: string)
    requires t != [] && !JavaSpace(t[0]) && !JavaSpace(t[|t| - 1])
    ensures JavaTrim(t + " ") == t && JavaTrim(t) == t
  {
    JavaTrimPadded([], t, " ");
    assert [] + t + " " == t + " ";
    JavaTrimIdentity(t);
  }

  /** A character added to the prefix lands at the end of the line. */
  lemma RepositoryFieldsSnoc(name: string, url: string, auth: bool, env: string, c: char)
    ensures RepositoryFields(name, url, auth, env + [c]) == RepositoryFields(name, url, auth, env) + [c]
  {
  }
}
