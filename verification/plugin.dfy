/** The decisions the current plugin makes while configuring a project:
    which mode runs, the standalone mode's main-class check, the jar names
    handed to the dependency list, and the repository recorded for each
    resolved artifact. */
module Plugin {
  import opened Common
  import opened Text
  import opened Models
  import opened RepositoryUtils
  import ManifestCodec

  // ---------------------------------------------------------------------
  // Modes

  /** What `afterEvaluate` sets up. */
  datatype Mode = PaperMode | StandaloneMode | DownloadOnly

  const BothModesMessage :=
    "Cannot enable both Paper and Standalone modes simultaneously. " +
    "Please enable only one mode in your build.gradle.kts"

  /** Both modes at once is an error; otherwise Paper if enabled, else
      standalone if enabled, else download only. */
  function SelectMode(paperEnabled: bool, standaloneEnabled: bool): (r: Result<Mode>)
    ensures r.Err? <==> paperEnabled && standaloneEnabled
    ensures r.Err? ==> r.message == BothModesMessage
    ensures r == Ok(PaperMode) <==> paperEnabled && !standaloneEnabled
    ensures r == Ok(StandaloneMode) <==> standaloneEnabled && !paperEnabled
    ensures r == Ok(DownloadOnly) <==> !paperEnabled && !standaloneEnabled
  {
    if paperEnabled && standaloneEnabled then Err(BothModesMessage)
    else if paperEnabled then Ok(PaperMode)
    else if standaloneEnabled then Ok(StandaloneMode)
    else Ok(DownloadOnly)
  }

  const StandaloneNeedsMainClass :=
    "Standalone mode requires mainClass to be set. Example:\n" +
    "runtimeDependency {\n" +
    "    standalone {\n" +
    "        enabled.set(true)\n" +
    "        mainClass.set(\"com.example.Main\")\n" +
    "    }\n" +
    "}"

  /** Standalone mode refuses an empty main class before registering any
      task. */
  function CheckStandaloneMainClass(mainClass: string): (r: Result<string>)
    ensures r.Ok? <==> mainClass != ""
    ensures r.Ok? ==> r.value == mainClass
    ensures r.Err? ==> r.message == StandaloneNeedsMainClass
  {
    if mainClass == "" then Err(StandaloneNeedsMainClass) else Ok(mainClass)
  }

  // ---------------------------------------------------------------------
  // Jar names

  /** The jar name the plugin derives for an artifact: its name, a dash,
      its version and `.jar`. The group plays no part, and the version can
      be read back from between the dash and the extension. */
  function JarName(a: ArtifactId): (r: string)
    ensures EndsWith(r, ".jar") && StartsWith(r, a.name + "-")
    ensures |r| == |a.name| + |a.version| + 5 && r[|a.name| + 1..|r| - 4] == a.version
  {
    var r := a.name + "-" + a.version + ".jar";
    assert r[|r| - 4..] == ".jar";
    assert r[..|a.name + "-"|] == a.name + "-";
    assert r[|a.name| + 1..|r| - 4] == a.version;
    r
  }

  /** The dependency jar names, one per resolved artifact, in order. */
  function JarNames(artifacts: seq<ArtifactId>): (r: seq<string>)
    ensures |r| == |artifacts|
    ensures forall i :: 0 <= i < |r| ==> r[i] == JarName(artifacts[i])
    ensures forall i :: 0 <= i < |r| ==> EndsWith(r[i], ".jar") && StartsWith(r[i], artifacts[i].name + "-")
  {
    seq(|artifacts|, i requires 0 <= i < |artifacts| => JarName(artifacts[i]))
  }

  /** Artifacts with the same name get the same jar name exactly when
      their versions agree, whatever their groups. */
  lemma JarNameDecidedByVersion(a: ArtifactId, b: ArtifactId)
    requires a.name == b.name
    ensures JarName(a) == JarName(b) <==> a.version == b.version
  {
    if JarName(a) == JarName(b) {
      assert |a.version| == |b.version|;
    }
  }

  // ---------------------------------------------------------------------
  // findRepositoryForArtifact

  /** The repositories scanned: the project's, then its parent's. */
  function ScanOrder(project: seq<DeclaredRepository>, parent: Option<seq<DeclaredRepository>>): (r: seq<DeclaredRepository>)
    ensures parent.None? ==> r == project
    ensures parent.Some? ==> r == project + parent.value
  {
    match parent
    case None => project
    case Some(p) => project + p
  }

  /** The name recorded for a repository: `maven` when it has none. */
  function RecordedName(name: string): (r: string)
    ensures r != ""
    ensures name != "" ==> r == name
  {
    if name == "" then "maven" else name
  }

  /** One scanned repository as (name, stored URL), when it is a Maven
      repository outside Maven Central. */
  function Candidate(d: DeclaredRepository): (r: Option<(string, string)>)
    ensures r.Some? <==> d.MavenRepository? && !IsMavenCentral(StoredUrl(d.url))
    ensures r.Some? ==> r.value == (RecordedName(d.name), StoredUrl(d.url))
  {
    if d.MavenRepository? && !IsMavenCentral(StoredUrl(d.url)) then Some((RecordedName(d.name), StoredUrl(d.url)))
    else None
  }

  /** The candidates of all scanned repositories, in scan order. */
  function Candidates(scan: seq<DeclaredRepository>): (r: seq<(string, string)>)
    ensures forall i :: 0 <= i < |r| ==> r[i].0 != "" && !IsMavenCentral(r[i].1)
    ensures forall d :: d in scan && Candidate(d).Some? ==> Candidate(d).value in r
    ensures scan != [] && Candidate(scan[0]).Some? ==> r != [] && r[0] == Candidate(scan[0]).value
    ensures scan != [] && Candidate(scan[0]).None? ==> r == Candidates(scan[1..])
  {
    if scan == [] then []
    else
      var rest := Candidates(scan[1..]);
      assert forall d :: d in scan ==> d == scan[0] || d in scan[1..];
      match Candidate(scan[0])
      case Some(c) => [c] + rest
      case None => rest
  }

  function UrlOf(c: (string, string)): string {
    c.1
  }

  /** `privateRepos`: candidates whose URL was not seen before. */
  function PrivateRepositories(scan: seq<DeclaredRepository>): (r: seq<(string, string)>)
    ensures forall i, j :: 0 <= i < j < |r| ==> r[i].1 != r[j].1
    ensures forall i :: 0 <= i < |r| ==> r[i] in Candidates(scan)
  {
    var cs := Candidates(scan);
    var r := DistinctBy(cs, UrlOf);
    forall x | x in r
      ensures x in cs
    {
      var i :| 0 <= i < |cs| && FirstOfKey(cs, UrlOf, i) && cs[i] == x;
    }
    r
  }

  /** A private repository as recorded: credential properties are always
      named after it. */
  function PrivateInfo(c: (string, string)): RepositoryInfo {
    RepositoryInfo(c.0, c.1, Some(c.0 + ".username"), Some(c.0 + ".password"), false)
  }

  const CentralDefault := RepositoryInfo(ManifestCodec.CentralName, ManifestCodec.CentralUrl, None, None, true)

  /** `findRepositoryForArtifact`: the first private repository found, or
      Maven Central when there is none. The URL check only removes later
      repositories, so the result is simply the first Maven repository
      outside Central in scan order. */
  function FindRepositoryForArtifact(project: seq<DeclaredRepository>, parent: Option<seq<DeclaredRepository>>): (r: RepositoryInfo)
    ensures var cs := Candidates(ScanOrder(project, parent));
      (cs == [] ==> r == CentralDefault) && (cs != [] ==> r == PrivateInfo(cs[0]))
    ensures !r.isMavenCentral ==> r.name != "" && !IsMavenCentral(r.url)
    ensures !r.isMavenCentral ==> r.usernameProperty == Some(r.name + ".username") && r.passwordProperty == Some(r.name + ".password")
  {
    var scan := ScanOrder(project, parent);
    var ps := PrivateRepositories(scan);
    FirstPrivateIsFirstCandidate(Candidates(scan));
    if ps == [] then CentralDefault else PrivateInfo(ps[0])
  }

  /** Dropping repeated URLs never drops the first candidate. */
  lemma FirstPrivateIsFirstCandidate(cs: seq<(string, string)>)
    ensures cs == [] <==> DistinctBy(cs, UrlOf) == []
    ensures cs != [] ==> DistinctBy(cs, UrlOf)[0] == cs[0]
  {
    if cs != [] {
      DistinctByPrefix(cs, UrlOf, 1);
      assert cs[..1] == [cs[0]];
      assert [cs[0]][..0] == [];
    }
  }

  /** A project's own repository is preferred over the parent's, and Maven
      Central or non-Maven repositories are passed over. */
  lemma ProjectBeforeParent(d: DeclaredRepository, parent: seq<DeclaredRepository>)
    requires Candidate(d).Some?
    ensures FindRepositoryForArtifact([d], Some(parent)) == PrivateInfo(Candidate(d).value)
  {
    assert ScanOrder([d], Some(parent))[0] == d;
  }

  /** With no private repository anywhere, Maven Central is recorded. */
  lemma OnlyCentralGivesDefault(project: seq<DeclaredRepository>)
    requires forall d :: d in project ==> Candidate(d).None?
    ensures FindRepositoryForArtifact(project, None) == CentralDefault
  {
    if Candidates(project) != [] {
      var x := Candidates(project)[0];
      assert x in Candidates(project);
      CandidateOrigin(project, x);
    }
  }

  lemma {:induction false} CandidateOrigin(scan: seq<DeclaredRepository>, x: (string, string))
    requires x in Candidates(scan)
    ensures exists d :: d in scan && Candidate(d) == Some(x)
  {
    if Candidate(scan[0]) == Some(x) {
    } else {
      assert x in Candidates(scan[1..]);
      CandidateOrigin(scan[1..], x);
      var d :| d in scan[1..] && Candidate(d) == Some(x);
      assert d in scan;
    }
  }

  // ---------------------------------------------------------------------
  // analyzeDependencies

  /** One dependency record per resolved artifact, in order, all with the
      same repository. */
  function AnalyzeDependencies(artifacts: seq<ArtifactId>, repository: RepositoryInfo): (r: seq<DependencyInfo>)
    ensures |r| == |artifacts|
    ensures forall i :: 0 <= i < |r| ==>
      r[i].groupId == artifacts[i].group && r[i].artifactId == artifacts[i].name &&
      r[i].version == artifacts[i].version && r[i].repository == repository
  {
    seq(|artifacts|, i requires 0 <= i < |artifacts| =>
      DependencyInfo(artifacts[i].group, artifacts[i].name, artifacts[i].version, repository))
  }
}
