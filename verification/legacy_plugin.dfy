/** The decisions of the older plugin (`net.cubizor.runtimedependency`)
    while configuring a project: the Paper loader package detected from the
    plugin descriptor, and the repository recorded for each resolved
    artifact, which also marks Maven-local repositories. */
module LegacyPlugin {
  import opened Common
  import opened Text
  import opened Models
  import opened RepositoryUtils
  import opened LegacyRepositoryUtils
  import opened Tasks
  import Plugin
  import ManifestCodec

  // ---------------------------------------------------------------------
  // detectPluginPackage

  const MainKey := "main:"
  const Quotes: set<char> := {'"', '\''}

  /** A descriptor file under `src/main/resources`: absent, present but
      failing to read, or its lines. */
  datatype YmlFile = Missing | Unreadable | Lines(lines: seq<string>)

  /** A line declaring the main class once trimmed. */
  predicate IsMainLine(line: string) {
    StartsWith(KotlinTrim(line), MainKey)
  }

  /** The declared main class: the text after the first `main:`, trimmed of
      white space and then of quote characters. */
  function MainValue(line: string): string {
    TrimChars(KotlinTrim(SubstringAfter(line, MainKey)), Quotes)
  }

  /** A declared class name the package can be taken from. */
  predicate Usable(value: string) {
    !IsBlank(value) && '.' in value
  }

  /** The package of a usable class name: the text before its last dot. */
  function PackageOf(value: string): (r: Option<string>)
    ensures r.Some? <==> Usable(value)
    ensures r.Some? ==> |r.value| < |value| && r.value + "." + value[|r.value| + 1..] == value
    ensures r.Some? ==> '.' !in value[|r.value| + 1..]
  {
    if Usable(value) then
      var p := SubstringBeforeLast(value, '.');
      assert p + "." + value[|p| + 1..] == value;
      Some(p)
    else None
  }

  /** What one descriptor's lines yield: only the first main line is
      considered; without one the file yields nothing. */
  function PackageFromLines(lines: seq<string>): (r: Option<string>)
    ensures !HasMatch(lines, IsMainLine) ==> r.None?
    ensures forall i :: 0 <= i < |lines| && IsFirstMatch(lines, IsMainLine, i) ==> r == PackageOf(MainValue(lines[i]))
  {
    var i := IndexOfFirst(lines, IsMainLine);
    if i < 0 then None
    else
      assert forall k :: 0 <= k < |lines| && IsFirstMatch(lines, IsMainLine, k) ==> k == i;
      PackageOf(MainValue(lines[i]))
  }

  /** What one descriptor file yields; a read failure is logged and skipped. */
  function PackageFromFile(f: YmlFile): (r: Option<string>)
    ensures !f.Lines? ==> r.None?
    ensures f.Lines? ==> r == PackageFromLines(f.lines)
  {
    match f
    case Lines(ls) => PackageFromLines(ls)
    case _ => None
  }

  const Unspecified := "unspecified"

  /** `detectPluginPackage`: `paper-plugin.yml` first, then `plugin.yml`,
      then the project group unless it is blank or Gradle's `unspecified`. */
  function DetectPluginPackage(paperYml: YmlFile, pluginYml: YmlFile, group: string): (r: Option<string>)
    ensures PackageFromFile(paperYml).Some? ==> r == PackageFromFile(paperYml)
    ensures PackageFromFile(paperYml).None? && PackageFromFile(pluginYml).Some? ==> r == PackageFromFile(pluginYml)
    ensures PackageFromFile(paperYml).None? && PackageFromFile(pluginYml).None? ==>
      (r.Some? <==> !IsBlank(group) && group != Unspecified) && (r.Some? ==> r.value == group)
  {
    match PackageFromFile(paperYml)
    case Some(p) => Some(p)
    case None =>
      match PackageFromFile(pluginYml)
      case Some(p) => Some(p)
      case None => if !IsBlank(group) && group != Unspecified then Some(group) else None
  }

  /** A line with `main:` after leading white space is a main line. */
  lemma MainLineAfterSpaces(ws: string, rest: string)
    requires forall i :: 0 <= i < |ws| ==> KotlinSpace(ws[i])
    ensures IsMainLine(ws + MainKey + rest)
  {
    assert !KotlinSpace(MainKey[0]) && !KotlinSpace(MainKey[|MainKey| - 1]);
    TrimKeepsKeyAfterSpaces(ws, MainKey, rest);
  }

  /** The first `main:` sits right after the leading white space. */
  lemma FirstKeyAfterSpaces(ws: string, rest: string)
    requires forall i :: 0 <= i < |ws| ==> KotlinSpace(ws[i])
    ensures SubstringAfter(ws + MainKey + rest, MainKey) == rest
  {
    var line := ws + MainKey + rest;
    assert OccursAt(line, MainKey, |ws|) by {
      assert line[|ws|..|ws| + |MainKey|] == MainKey;
    }
    forall j | 0 <= j < |ws|
      ensures !OccursAt(line, MainKey, j)
    {
      assert line[j] == ws[j];
      if j + |MainKey| <= |line| {
        assert line[j..j + |MainKey|][0] == line[j];
      }
    }
    assert line[|ws| + |MainKey|..] == rest;
  }

  /** Quote characters around a value whose ends are not quotes are
      removed, one or more on each side. */
  lemma {:induction false} TrimQuotes(lq: string, v: string, rq: string)
    requires forall i :: 0 <= i < |lq| ==> lq[i] in Quotes
    requires forall i :: 0 <= i < |rq| ==> rq[i] in Quotes
    requires v != [] && v[0] !in Quotes && v[|v| - 1] !in Quotes
    ensures TrimChars(lq + v + rq, Quotes) == v
    decreases |lq| + |rq|
  {
    var s := lq + v + rq;
    if lq != [] {
      assert s[1..] == lq[1..] + v + rq;
      TrimQuotes(lq[1..], v, rq);
    } else if rq != [] {
      assert s[0] == v[0];
      assert s[..|s| - 1] == lq + v + rq[..|rq| - 1];
      TrimQuotes(lq, v, rq[..|rq| - 1]);
    } else {
      assert s == v;
    }
  }

  /** Trimming white space and then quotes recovers the value. */
  lemma TrimPaddedValue(pad: string, lq: string, v: string, rq: string, tail: string)
    requires forall i :: 0 <= i < |pad| ==> KotlinSpace(pad[i])
    requires forall i :: 0 <= i < |tail| ==> KotlinSpace(tail[i])
    requires forall i :: 0 <= i < |lq| ==> lq[i] in Quotes
    requires forall i :: 0 <= i < |rq| ==> rq[i] in Quotes
    requires v != [] && v[0] !in Quotes && v[|v| - 1] !in Quotes
    requires !KotlinSpace(v[0]) && !KotlinSpace(v[|v| - 1])
    ensures TrimChars(KotlinTrim(pad + lq + v + rq + tail), Quotes) == v
  {
    var quoted := lq + v + rq;
    assert quoted[0] == if lq == [] then v[0] else lq[0];
    assert quoted[|quoted| - 1] == if rq == [] then v[|v| - 1] else rq[|rq| - 1];
    assert pad + lq + v + rq + tail == pad + quoted + tail;
    KotlinTrimPadded(pad, quoted, tail);
    TrimQuotes(lq, v, rq);
  }

  /** A declaration `main: <class>`, with any white space around the key
      and the value and optional quotes, is a main line whose value is the
      class name. */
  lemma DeclaredMainClass(ws: string, pad: string, lq: string, v: string, rq: string, tail: string)
    requires forall i :: 0 <= i < |ws| ==> KotlinSpace(ws[i])
    requires forall i :: 0 <= i < |pad| ==> KotlinSpace(pad[i])
    requires forall i :: 0 <= i < |tail| ==> KotlinSpace(tail[i])
    requires forall i :: 0 <= i < |lq| ==> lq[i] in Quotes
    requires forall i :: 0 <= i < |rq| ==> rq[i] in Quotes
    requires v != [] && v[0] !in Quotes && v[|v| - 1] !in Quotes
    requires !KotlinSpace(v[0]) && !KotlinSpace(v[|v| - 1])
    ensures IsMainLine(ws + MainKey + (pad + lq + v + rq + tail))
    ensures MainValue(ws + MainKey + (pad + lq + v + rq + tail)) == v
  {
    var rest := pad + lq + v + rq + tail;
    MainLineAfterSpaces(ws, rest);
    FirstKeyAfterSpaces(ws, rest);
    TrimPaddedValue(pad, lq, v, rq, tail);
  }

  /** The detected package is what precedes the last dot of the first
      declared main class; an unqualified class yields nothing from that
      file, whatever later lines say. */
  lemma PackageOfDeclaredClass(before: seq<string>, line: string, after: seq<string>, v: string)
    requires forall i :: 0 <= i < |before| ==> !IsMainLine(before[i])
    requires IsMainLine(line) && MainValue(line) == v
    requires v != [] && !KotlinSpace(v[0])
    ensures '.' in v ==> PackageFromLines(before + [line] + after) == Some(SubstringBeforeLast(v, '.'))
    ensures '.' !in v ==> PackageFromLines(before + [line] + after) == None
  {
    var lines := before + [line] + after;
    assert lines[|before|] == line;
    assert IsFirstMatch(lines, IsMainLine, |before|) by {
      assert forall j :: 0 <= j < |before| ==> lines[j] == before[j];
    }
    assert !IsBlank(v);
  }

  /** A one-line descriptor `main: <class>` yields the class's package. */
  lemma SingleDeclaration(cls: string)
    requires cls != [] && cls[0] !in Quotes && cls[|cls| - 1] !in Quotes
    requires !KotlinSpace(cls[0]) && !KotlinSpace(cls[|cls| - 1])
    ensures PackageFromLines([MainKey + " " + cls]) == PackageOf(cls)
  {
    SingleMainLine(cls);
    OnlyLinePackage(MainKey + " " + cls, cls);
  }

  /** A file whose one line declares the main class yields its package. */
  lemma OnlyLinePackage(line: string, v: string)
    requires IsMainLine(line) && MainValue(line) == v
    requires v != [] && !KotlinSpace(v[0])
    ensures PackageFromLines([line]) == PackageOf(v)
  {
    assert [] + [line] + [] == [line];
    PackageOfDeclaredClass([], line, [], v);
  }

  lemma SingleMainLine(cls: string)
    requires cls != [] && cls[0] !in Quotes && cls[|cls| - 1] !in Quotes
    requires !KotlinSpace(cls[0]) && !KotlinSpace(cls[|cls| - 1])
    ensures IsMainLine(MainKey + " " + cls) && MainValue(MainKey + " " + cls) == cls
  {
    assert [] + MainKey + (" " + [] + cls + [] + []) == MainKey + " " + cls;
    DeclaredMainClass([], " ", [], cls, [], []);
  }

  /** A plugin whose main class sits in the unnamed package, written
      `main: .Main`, is detected with the empty package. */
  lemma LeadingDotGivesEmptyPackage(cls: string)
    requires cls != [] && cls[|cls| - 1] !in Quotes && !KotlinSpace(cls[|cls| - 1]) && '.' !in cls
    ensures PackageFromLines([MainKey + " ." + cls]) == Some("")
  {
    var v := "." + cls;
    assert MainKey + " ." + cls == MainKey + " " + v;
    SingleDeclaration(v);
    assert v[|v| - 1] == cls[|cls| - 1];
    assert v[1..] == cls;
  }

  /** An unqualified main class in `paper-plugin.yml` does not stop the
      search: `plugin.yml` is read next. */
  lemma UnqualifiedPaperClassFallsThrough(cls: string, qualified: string)
    requires cls != [] && cls[0] !in Quotes && cls[|cls| - 1] !in Quotes
    requires !KotlinSpace(cls[0]) && !KotlinSpace(cls[|cls| - 1]) && '.' !in cls
    requires qualified != [] && qualified[0] !in Quotes && qualified[|qualified| - 1] !in Quotes
    requires !KotlinSpace(qualified[0]) && !KotlinSpace(qualified[|qualified| - 1]) && '.' in qualified
    ensures DetectPluginPackage(Lines([MainKey + " " + cls]), Lines([MainKey + " " + qualified]), Unspecified)
      == Some(SubstringBeforeLast(qualified, '.'))
  {
    SingleDeclaration(cls);
    SingleDeclaration(qualified);
  }

  // ---------------------------------------------------------------------
  // The Paper loader package

  const DefaultLoaderPackage := "net.cubizor.loader"

  /** The package the Paper loader is generated in: a detected package
      replaces the default one, never a package the build configured. */
  function LoaderPackage(configured: string, paperYml: YmlFile, pluginYml: YmlFile, group: string): (r: string)
    ensures configured != DefaultLoaderPackage ==> r == configured
    ensures configured == DefaultLoaderPackage ==>
      (DetectPluginPackage(paperYml, pluginYml, group).Some? ==> r == DetectPluginPackage(paperYml, pluginYml, group).value) &&
      (DetectPluginPackage(paperYml, pluginYml, group).None? ==> r == DefaultLoaderPackage)
  {
    if configured == DefaultLoaderPackage then
      DetectPluginPackage(paperYml, pluginYml, group).OrElse(configured)
    else configured
  }

  /** With no descriptor, a real group is used as the loader package. */
  lemma GroupUsedWithoutDescriptor(group: string)
    requires !IsBlank(group) && group != Unspecified
    ensures LoaderPackage(DefaultLoaderPackage, Missing, Missing, group) == group
  {
  }

  /** The choice changes the configured package exactly when it is the
      default and a different package is detected, and it settles: making
      it again from its own result, on the same descriptors and group,
      gives the same package. */
  lemma LoaderPackageSettles(configured: string, paperYml: YmlFile, pluginYml: YmlFile, group: string)
    ensures var d := DetectPluginPackage(paperYml, pluginYml, group);
      (LoaderPackage(configured, paperYml, pluginYml, group) != configured) ==
      (configured == DefaultLoaderPackage && d.Some? && d.value != DefaultLoaderPackage)
    ensures var r := LoaderPackage(configured, paperYml, pluginYml, group);
      LoaderPackage(r, paperYml, pluginYml, group) == r
  {
  }

  // ---------------------------------------------------------------------
  // findRepositoryForArtifact

  /** A private repository as the older plugin records it: no credential
      properties for a Maven-local URL, which is flagged as such. */
  function LegacyPrivateInfo(c: (string, string)): (r: LegacyRepositoryInfo)
    ensures r.name == c.0 && r.url == c.1 && !r.isMavenCentral
    ensures r.isMavenLocal <==> IsMavenLocal(c.1)
    ensures r.isMavenLocal ==> r.usernameProperty.None? && r.passwordProperty.None?
    ensures !r.isMavenLocal ==> r.usernameProperty == Some(c.0 + ".username") && r.passwordProperty == Some(c.0 + ".password")
  {
    var local := IsMavenLocal(c.1);
    LegacyRepositoryInfo(c.0, c.1,
      if local then None else Some(c.0 + ".username"),
      if local then None else Some(c.0 + ".password"),
      false, local)
  }

  /** Maven Central; the older record's local flag defaults to false. */
  const LegacyCentralDefault := LegacyRepositoryInfo(ManifestCodec.CentralName, ManifestCodec.CentralUrl, None, None, true, false)

  /** `findRepositoryForArtifact` of the older plugin: the same scan as the
      current one, with Maven-local repositories marked. */
  function LegacyFindRepositoryForArtifact(project: seq<DeclaredRepository>, parent: Option<seq<DeclaredRepository>>): (r: LegacyRepositoryInfo)
    ensures var cs := Plugin.Candidates(Plugin.ScanOrder(project, parent));
      (cs == [] ==> r == LegacyCentralDefault) && (cs != [] ==> r == LegacyPrivateInfo(cs[0]))
    ensures r.isMavenCentral ==> !r.isMavenLocal
  {
    var scan := Plugin.ScanOrder(project, parent);
    var ps := Plugin.PrivateRepositories(scan);
    Plugin.FirstPrivateIsFirstCandidate(Plugin.Candidates(scan));
    if ps == [] then LegacyCentralDefault else LegacyPrivateInfo(ps[0])
  }

  /** Both generations pick the same repository; they differ only in the
      local flag and in the credential properties of a local repository. */
  lemma SameRepositoryAsCurrent(project: seq<DeclaredRepository>, parent: Option<seq<DeclaredRepository>>)
    ensures var l := LegacyFindRepositoryForArtifact(project, parent);
      var c := Plugin.FindRepositoryForArtifact(project, parent);
      l.name == c.name && l.url == c.url && l.isMavenCentral == c.isMavenCentral &&
      (!l.isMavenLocal ==> l.usernameProperty == c.usernameProperty && l.passwordProperty == c.passwordProperty)
  {
  }

  // ---------------------------------------------------------------------
  // analyzeDependencies

  /** One record per resolved artifact, in order, never marked as coming
      from Maven local, whatever the repository. */
  function LegacyAnalyzeDependencies(artifacts: seq<ArtifactId>, repository: LegacyRepositoryInfo): (r: seq<LegacyDependencyInfo>)
    ensures |r| == |artifacts|
    ensures forall i :: 0 <= i < |r| ==>
      r[i].groupId == artifacts[i].group && r[i].artifactId == artifacts[i].name &&
      r[i].version == artifacts[i].version && r[i].repository == repository && !r[i].isFromMavenLocal
  {
    seq(|artifacts|, i requires 0 <= i < |artifacts| =>
      LegacyDependencyInfo(artifacts[i].group, artifacts[i].name, artifacts[i].version, repository, false))
  }
}
