/** How the pieces meet: what the build side writes and what the run-time
    side reads. Each lemma follows one value from the component that
    produces it to the one that consumes it. */
module Pipeline {
  import opened Common
  import opened Text
  import opened Models
  import ManifestCodec
  import StandaloneJar
  import BootstrapMain
  import Tasks
  import Plugin
  import RuntimeResolution
  import LegacyTasks
  import LegacyPlugin

  // ---------------------------------------------------------------------
  // Jar names and the download layout

  /** A jar named by the plugin is filed under the artifact's own name when
      the download is organised by group, provided the version holds no
      dash (a `-SNAPSHOT` version puts it under `<name>-<version-head>`). */
  lemma JarFiledUnderArtifactName(a: ArtifactId)
    requires '-' !in a.version
    ensures Tasks.Destination(true, Plugin.JarName(a)) == a.name + "/" + Plugin.JarName(a)
  {
    var stem := a.name + "-" + a.version;
    assert Plugin.JarName(a) == stem + "." + "jar";
    Tasks.StemOfName(stem, "jar");
    Tasks.GroupOfStem(a.name, a.version);
  }

  // ---------------------------------------------------------------------
  // The rewritten manifest as the bootstrap reads it

  const LibraryPathAttribute := "Library-Path"
  const PluginLibraryPathAttribute := "Runtime-Dependency-Library-Path"

  /** An attribute list without a `Library-Path` entry in any letter case. */
  predicate LacksLibraryPath(m: StandaloneJar.Attributes) {
    forall j :: 0 <= j < |m| ==> !EqualsIgnoreCase(m[j].0, LibraryPathAttribute)
  }

  lemma NamesOfOtherLength(a: string, b: string)
    requires |a| != |b|
    ensures !EqualsIgnoreCase(a, b)
  {
    assert |Lower(a)| != |Lower(b)|;
  }

  /** The bootstrap started from a rewritten jar reads the manifest as
      `JarOutputStream` wrote it. When the original manifest carries a
      version header, the bootstrap finds the application's main class;
      without one no main attribute survives the write, so it finds none
      (and the jar names no `Main-Class` to start it by either). Unless the
      original carried `Library-Path`, the library directory comes from the
      system property or is `libs`. */
  lemma BootstrapReadsRewrittenManifest(base: StandaloneJar.Attributes, mainClass: string, libraryProperty: Option<string>)
    requires StandaloneJar.CaseUnique(base) && LacksLibraryPath(base)
    ensures var written := StandaloneJar.WrittenMainAttributes(StandaloneJar.RewriteManifest(Some(base), mainClass));
      var c := BootstrapMain.ResolveConfig(None, libraryProperty, Some(written));
      && (StandaloneJar.HasVersionHeader(base) ==> c.mainClass == Some(mainClass))
      && (!StandaloneJar.HasVersionHeader(base) ==> written == [] && c.mainClass.None?)
      && c.libraryPath == if libraryProperty.Some? && libraryProperty.value != "" then libraryProperty.value else BootstrapMain.DefaultLibraryPath
  {
    var withMain := StandaloneJar.PutValue(base, "Main-Class", StandaloneJar.BootstrapMainClass);
    var rewritten := StandaloneJar.RewriteManifest(Some(base), mainClass);
    assert StandaloneJar.HasVersionHeader(rewritten) == StandaloneJar.HasVersionHeader(base) by {
      VersionHeaderKept(base, withMain, mainClass, StandaloneJar.ManifestVersion);
      VersionHeaderKept(base, withMain, mainClass, StandaloneJar.SignatureVersion);
    }
    NamesOfOtherLength("Main-Class", LibraryPathAttribute);
    NamesOfOtherLength("Original-Main-Class", LibraryPathAttribute);
    StandaloneJar.PutValueKeepsOthers(base, "Main-Class", StandaloneJar.BootstrapMainClass, LibraryPathAttribute);
    StandaloneJar.PutValueKeepsOthers(withMain, "Original-Main-Class", mainClass, LibraryPathAttribute);
    assert StandaloneJar.AttributeIndex(base, LibraryPathAttribute) < 0;
  }

  /** The two `putValue` calls leave a version header as it was. */
  lemma VersionHeaderKept(base: StandaloneJar.Attributes, withMain: StandaloneJar.Attributes, mainClass: string, version: string)
    requires StandaloneJar.CaseUnique(base)
    requires withMain == StandaloneJar.PutValue(base, "Main-Class", StandaloneJar.BootstrapMainClass)
    requires |version| == 16 || |version| == 17
    ensures StandaloneJar.GetValue(StandaloneJar.RewriteManifest(Some(base), mainClass), version) == StandaloneJar.GetValue(base, version)
  {
    NamesOfOtherLength("Main-Class", version);
    NamesOfOtherLength("Original-Main-Class", version);
    StandaloneJar.PutValueKeepsOthers(base, "Main-Class", StandaloneJar.BootstrapMainClass, version);
    StandaloneJar.PutValueKeepsOthers(withMain, "Original-Main-Class", mainClass, version);
  }

  /** The library directory the plugin records in the jar manifest, under
      `Runtime-Dependency-Library-Path`, never reaches the bootstrap, which
      reads `Library-Path`: in a jar whose manifest Gradle wrote (so with a
      `Manifest-Version`), the bootstrap finds the main class but uses
      `libs` unless the system property names another directory. */
  lemma RecordedLibraryPathUnread(mainClass: string, libraryPath: string)
    ensures var written := [(StandaloneJar.ManifestVersion, "1.0"), ("Main-Class", mainClass), (PluginLibraryPathAttribute, libraryPath)];
      var c := BootstrapMain.ResolveConfig(None, None,
        Some(StandaloneJar.WrittenMainAttributes(StandaloneJar.RewriteManifest(Some(written), mainClass))));
      c.mainClass == Some(mainClass) && c.libraryPath == BootstrapMain.DefaultLibraryPath
  {
    var written := [(StandaloneJar.ManifestVersion, "1.0"), ("Main-Class", mainClass), (PluginLibraryPathAttribute, libraryPath)];
    NamesOfOtherLength(StandaloneJar.ManifestVersion, "Main-Class");
    NamesOfOtherLength(StandaloneJar.ManifestVersion, PluginLibraryPathAttribute);
    NamesOfOtherLength(StandaloneJar.ManifestVersion, LibraryPathAttribute);
    NamesOfOtherLength("Main-Class", PluginLibraryPathAttribute);
    NamesOfOtherLength("Main-Class", LibraryPathAttribute);
    NamesOfOtherLength(PluginLibraryPathAttribute, LibraryPathAttribute);
    assert written[0].0 == StandaloneJar.ManifestVersion && written[1].0 == "Main-Class" && written[2].0 == PluginLibraryPathAttribute;
    assert StandaloneJar.AttributeIndex(written, StandaloneJar.ManifestVersion) == 0;
    BootstrapReadsRewrittenManifest(written, mainClass, None);
  }

  // ---------------------------------------------------------------------
  // The dependency manifest as the bootstrap reads it

  /** The bootstrap takes every non-comment line of
      `META-INF/runtime-dependencies.txt` as a jar file name, so the
      manifest the plugin generates hands it the Maven Central record, and
      every dependency record, as names of jars to look for. */
  lemma BootstrapReadsRecordsAsJarNames(deps: seq<DependencyInfo>, repos: OrderedMap<string, RepositoryInfo>)
    requires forall i :: 0 <= i < |deps| ==> ManifestCodec.EncodableDependency(deps[i])
    requires forall i :: 0 <= i < |repos| ==> ManifestCodec.EncodableRepository(repos[i].1)
    ensures ManifestCodec.CentralLine in BootstrapMain.DependenciesFromText(Some(ManifestCodec.Encode(deps, repos)))
    ensures forall i :: 0 <= i < |deps| && StoresUntrimmed(deps[i]) ==>
      ManifestCodec.DependencyLine(deps[i]) in BootstrapMain.DependenciesFromText(Some(ManifestCodec.Encode(deps, repos)))
  {
    EncodedTextLines(deps, repos);
    EncodedLinesRead(deps, Values(repos));
  }

  /** Read as jar names, the manifest's lines give the Maven Central line
      and every dependency line that trimming leaves alone. */
  lemma EncodedLinesRead(deps: seq<DependencyInfo>, vs: seq<RepositoryInfo>)
    ensures ManifestCodec.CentralLine in BootstrapMain.ReadDependencies(ManifestCodec.EncodeLines(deps, vs))
    ensures forall i :: 0 <= i < |deps| && StoresUntrimmed(deps[i]) ==>
      ManifestCodec.DependencyLine(deps[i]) in BootstrapMain.ReadDependencies(ManifestCodec.EncodeLines(deps, vs))
  {
    var lines := ManifestCodec.EncodeLines(deps, vs);
    CentralLineRead(lines);
    ManifestCodec.EncodedDependencies(deps, vs);
    forall i | 0 <= i < |deps| && StoresUntrimmed(deps[i])
      ensures ManifestCodec.DependencyLine(deps[i]) in BootstrapMain.ReadDependencies(lines)
    {
      DependencyLineTrimmed(deps[i]);
      ReadTrimmedLine(lines, 4 + i, ManifestCodec.DependencyLine(deps[i]));
    }
  }

  lemma CentralLineRead(lines: seq<string>)
    requires lines != [] && lines[|lines| - 1] == ManifestCodec.CentralLine
    ensures ManifestCodec.CentralLine in BootstrapMain.ReadDependencies(lines)
  {
    CentralLineTrimmed();
    ReadTrimmedLine(lines, |lines| - 1, ManifestCodec.CentralLine);
  }

  /** The bootstrap reads the written text as the written lines. */
  lemma EncodedTextLines(deps: seq<DependencyInfo>, repos: OrderedMap<string, RepositoryInfo>)
    requires ManifestCodec.Encodable(deps, repos)
    ensures BootstrapMain.DependenciesFromText(Some(ManifestCodec.Encode(deps, repos)))
      == BootstrapMain.ReadDependencies(ManifestCodec.EncodeLines(deps, Values(repos)))
  {
  }

  /** A line that trims to a listed name is read as that name. */
  lemma ReadTrimmedLine(lines: seq<string>, k: nat, x: string)
    requires k < |lines| && JavaTrim(lines[k]) == x && BootstrapMain.ListedDependency(x)
    ensures x in BootstrapMain.ReadDependencies(lines)
  {
    assert BootstrapMain.TrimAll(lines)[k] == x;
  }

  /** A dependency whose version does not end in white space. */
  predicate StoresUntrimmed(d: DependencyInfo) {
    d.version != [] && !JavaSpace(d.version[|d.version| - 1])
  }

  lemma DependencyLineTrimmed(d: DependencyInfo)
    requires StoresUntrimmed(d)
    ensures JavaTrim(ManifestCodec.DependencyLine(d)) == ManifestCodec.DependencyLine(d)
    ensures BootstrapMain.ListedDependency(ManifestCodec.DependencyLine(d))
  {
    var l := ManifestCodec.DependencyLine(d);
    assert l[0] == 'D' && l[|l| - 1] == d.version[|d.version| - 1];
    JavaTrimIdentity(l);
  }

  lemma CentralLineTrimmed()
    ensures JavaTrim(ManifestCodec.CentralLine) == ManifestCodec.CentralLine
    ensures BootstrapMain.ListedDependency(ManifestCodec.CentralLine)
  {
    var l := ManifestCodec.CentralLine;
    assert l[0] == 'R' && l[|l| - 1] == ':';
    JavaTrimIdentity(l);
  }

  // ---------------------------------------------------------------------
  // Credential variables at build time and at run time

  /** The build reads `<NAME>_USERNAME` with the name only upper-cased; the
      run-time loader reads `<PREFIX>_USERNAME` with `-` and `.` also
      turned into `_`. The two agree exactly for names without `-` or `.`. */
  lemma CredentialVariablesAgree(name: string)
    ensures Upper(name) + "_USERNAME" == RuntimeResolution.UsernameVariable(ManifestCodec.EnvPrefix(name))
        <==> '-' !in name && '.' !in name
    ensures Upper(name) + "_PASSWORD" == RuntimeResolution.PasswordVariable(ManifestCodec.EnvPrefix(name))
        <==> '-' !in name && '.' !in name
  {
    var u := Upper(name);
    var e := ManifestCodec.EnvPrefix(name);
    if '-' !in name && '.' !in name {
      assert u == e;
    } else {
      var i :| 0 <= i < |name| && (name[i] == '-' || name[i] == '.');
      assert u[i] != e[i];
      assert (u + "_USERNAME")[i] != (e + "_USERNAME")[i];
      assert (u + "_PASSWORD")[i] != (e + "_PASSWORD")[i];
    }
  }

  // ---------------------------------------------------------------------
  // Mode selection and the standalone jar

  /** The plugin's own check on the standalone main class is what keeps
      the jar task off its empty-main-class failure: once Standalone mode
      is selected and the check passes, the task fails exactly when the
      bootstrap classes cannot be extracted and otherwise writes the
      manifest for that main class; when the check fails, the task would
      have failed the same way. */
  lemma StandaloneCheckGuardsConfigure(paperEnabled: bool, standaloneEnabled: bool, mainClass: string,
                                       input: StandaloneJar.InputJar, plugin: StandaloneJar.PluginLocation,
                                       resources: map<string, StandaloneJar.Bytes>, resolverJars: seq<StandaloneJar.ResolverJar>)
    requires Plugin.SelectMode(paperEnabled, standaloneEnabled) == Ok(Plugin.StandaloneMode)
    requires input.manifest.Some? ==> StandaloneJar.CaseUnique(input.manifest.value)
    ensures Plugin.CheckStandaloneMainClass(mainClass).Ok? ==>
      var r := StandaloneJar.Configure(Plugin.CheckStandaloneMainClass(mainClass).value, input, plugin, resources, resolverJars);
      && r != Err(StandaloneJar.NoMainClass)
      && (r.Err? <==> StandaloneJar.ExtractBootstrap(plugin, resources).Err?)
      && (r.Ok? ==> r.value.manifest == StandaloneJar.RewriteManifest(input.manifest, mainClass))
    ensures Plugin.CheckStandaloneMainClass(mainClass).Err? ==>
      StandaloneJar.Configure(mainClass, input, plugin, resources, resolverJars) == Err(StandaloneJar.NoMainClass)
  {
    if mainClass != "" {
      var r := StandaloneJar.Configure(mainClass, input, plugin, resources, resolverJars);
      if r.Err? {
        assert r.message == StandaloneJar.ExtractBootstrap(plugin, resources).message;
        assert r.message == StandaloneJar.NoBootstrapInJar || r.message == StandaloneJar.NoBootstrapInClassLoader;
        assert |StandaloneJar.NoMainClass| < |StandaloneJar.NoBootstrapInJar| < |StandaloneJar.NoBootstrapInClassLoader|;
      }
    }
  }

  // ---------------------------------------------------------------------
  // Analysed dependencies through the manifest file

  /** An artifact whose coordinates survive the manifest file. */
  predicate EncodableArtifact(a: ArtifactId) {
    && ManifestCodec.PlainField(a.group) && ManifestCodec.PlainField(a.name) && ManifestCodec.PlainField(a.version)
    && a.version != [] && !JavaSpace(a.version[|a.version| - 1])
  }

  /** What the plugin analyses from the resolved artifacts, once written to
      the manifest file and read back, is the artifacts' own coordinates in
      the order Gradle reported them, whatever repository is recorded. */
  lemma AnalyzedDependenciesDecode(artifacts: seq<ArtifactId>, repository: RepositoryInfo,
                                   repos: OrderedMap<string, RepositoryInfo>)
    requires forall i :: 0 <= i < |artifacts| ==> EncodableArtifact(artifacts[i])
    requires forall i :: 0 <= i < |repos| ==> ManifestCodec.EncodableRepository(repos[i].1)
    ensures var ds := ManifestCodec.Decode(ManifestCodec.Encode(Plugin.AnalyzeDependencies(artifacts, repository), repos)).dependencies;
      && |ds| == |artifacts|
      && forall i :: 0 <= i < |artifacts| ==>
           ds[i] == ManifestCodec.Coordinate(artifacts[i].group, artifacts[i].name, artifacts[i].version)
  {
    var deps := Plugin.AnalyzeDependencies(artifacts, repository);
    forall i | 0 <= i < |deps|
      ensures ManifestCodec.EncodableDependency(deps[i])
    {
      assert EncodableArtifact(artifacts[i]);
    }
    ManifestCodec.DecodeEncode(deps, repos);
  }

  /** The legacy plugin's generated loader hands each recorded coordinate
      to the resolver as one `group:name:version` text; for artifacts with
      colon-free fields and a non-empty version, separating that text at
      `:` gives back exactly the artifact's group, name and version. */
  lemma LegacyCoordinatesSplitBack(artifacts: seq<ArtifactId>, repository: LegacyRepositoryInfo,
                                   repos: OrderedMap<string, LegacyRepositoryInfo>, i: nat)
    requires i < |artifacts|
    requires ':' !in artifacts[i].group && ':' !in artifacts[i].name && ':' !in artifacts[i].version
    requires artifacts[i].version != []
    ensures var p := LegacyTasks.LegacyPlanLoader(LegacyPlugin.LegacyAnalyzeDependencies(artifacts, repository), repos);
      JavaSplit(p.dependencies[i], ':') == [artifacts[i].group, artifacts[i].name, artifacts[i].version]
  {
    var a := artifacts[i];
    ManifestCodec.SplitThree(a.group, a.name, a.version);
  }
}
