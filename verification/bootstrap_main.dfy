/** The entry point injected into standalone jars: it resolves the real
    main class and library directory, reads the dependency list bundled in
    the jar, assembles a class path with the jar itself first, and runs the
    real main class through a class loader that prefers its own URLs for
    everything except platform and bootstrap classes. */
module BootstrapMain {
  import opened Common
  import opened Text
  import opened FileTree
  import opened StandaloneJar

  // ---------------------------------------------------------------------
  // Configuration

  const MainClassProperty := "runtime.dependency.main.class"
  const LibraryPathProperty := "runtime.dependency.library.path"
  const DefaultLibraryPath := "libs"

  /** What `main` settles on before it looks at any file. */
  datatype BootConfig = BootConfig(mainClass: Option<string>, libraryPath: string)

  /** The manifest's `Library-Path`, when it is consulted at all (only when
      the main-class property is absent) and non-empty. */
  function ManifestLibraryPath(mainProperty: Option<string>, manifest: Option<Attributes>): (r: Option<string>)
    ensures r.Some? ==> r.value != "" && mainProperty.None? && manifest.Some?
  {
    if mainProperty.Some? || manifest.None? then None
    else match GetValue(manifest.value, "Library-Path")
      case Some(p) => if p != "" then Some(p) else None
      case None => None
  }

  /** The main class and library directory: the main-class property wins
      and, when present, the manifest is not read at all; the library
      directory is the manifest's non-empty `Library-Path`, else the
      non-empty library-path property, else `libs`. A manifest that cannot
      be read counts as absent. */
  function ResolveConfig(mainProperty: Option<string>, libraryProperty: Option<string>, manifest: Option<Attributes>): (c: BootConfig)
    ensures mainProperty.Some? ==> c.mainClass == mainProperty
    ensures mainProperty.None? && manifest.Some? ==> c.mainClass == GetValue(manifest.value, "Original-Main-Class")
    ensures mainProperty.None? && manifest.None? ==> c.mainClass.None?
    ensures ManifestLibraryPath(mainProperty, manifest).Some? ==> c.libraryPath == ManifestLibraryPath(mainProperty, manifest).value
    ensures ManifestLibraryPath(mainProperty, manifest).None? && libraryProperty.Some? && libraryProperty.value != "" ==> c.libraryPath == libraryProperty.value
    ensures ManifestLibraryPath(mainProperty, manifest).None? && (libraryProperty.None? || libraryProperty.value == "") ==> c.libraryPath == DefaultLibraryPath
    ensures c.libraryPath != ""
  {
    var fromProperty := if libraryProperty.Some? && libraryProperty.value != "" then libraryProperty.value else DefaultLibraryPath;
    if mainProperty.Some? then BootConfig(mainProperty, fromProperty)
    else match manifest
      case None => BootConfig(None, fromProperty)
      case Some(attrs) =>
        var lib := ManifestLibraryPath(mainProperty, manifest);
        BootConfig(GetValue(attrs, "Original-Main-Class"), if lib.Some? then lib.value else fromProperty)
  }

  /** Setting the main class by property also switches off the manifest's
      library directory: with no library-path property the default `libs`
      is used although the manifest names another directory. */
  lemma MainPropertyHidesManifestLibrary(mainClass: string, attrs: Attributes)
    requires GetValue(attrs, "Library-Path") == Some("lib2")
    ensures ResolveConfig(Some(mainClass), None, Some(attrs)).libraryPath == DefaultLibraryPath
    ensures ResolveConfig(None, None, Some(attrs)).libraryPath == "lib2"
  {
  }

  // ---------------------------------------------------------------------
  // readDependencies

  /** A line worth keeping once trimmed: not empty and not a comment. */
  predicate ListedDependency(t: string) {
    t != "" && !StartsWith(t, "#")
  }

  /** Every line trimmed as `String.trim` does. */
  function TrimAll(lines: seq<string>): (r: seq<string>)
    ensures |r| == |lines| && forall i :: 0 <= i < |lines| ==> r[i] == JavaTrim(lines[i])
  {
    seq(|lines|, i requires 0 <= i < |lines| => JavaTrim(lines[i]))
  }

  /** The dependency lines among trimmed lines, in order. */
  function KeepDependencyLines(ts: seq<string>): (r: seq<string>)
    ensures |r| <= |ts|
    ensures forall i :: 0 <= i < |r| ==> ListedDependency(r[i])
    ensures forall x :: x in r <==> x in ts && ListedDependency(x)
  {
    if ts == [] then []
    else
      var rest := KeepDependencyLines(ts[1..]);
      assert forall x :: x in ts <==> x == ts[0] || x in ts[1..];
      if ListedDependency(ts[0]) then [ts[0]] + rest else rest
  }

  lemma {:induction false} KeepAppend(a: seq<string>, b: seq<string>)
    ensures KeepDependencyLines(a + b) == KeepDependencyLines(a) + KeepDependencyLines(b)
  {
    if a != [] {
      var ab := a + b;
      assert ab[0] == a[0] && ab[1..] == a[1..] + b;
      KeepAppend(a[1..], b);
      KeepCons(ab);
      KeepCons(a);
    } else {
      assert a + b == b;
    }
  }

  lemma KeepCons(ts: seq<string>)
    requires ts != []
    ensures KeepDependencyLines(ts) ==
      (if ListedDependency(ts[0]) then [ts[0]] else []) + KeepDependencyLines(ts[1..])
  {
  }

  /** `readDependencies` over the lines `readLine` delivered, up to the end
      of the resource or up to a read error (after which the lines so far
      are kept); a missing resource delivers none. The result is exactly
      the trimmed lines that are neither empty nor comments. */
  function ReadDependencies(lines: seq<string>): (r: seq<string>)
    ensures |r| <= |lines|
    ensures forall i :: 0 <= i < |r| ==> ListedDependency(r[i])
    ensures forall x :: x in r <==> x in TrimAll(lines) && ListedDependency(x)
  {
    KeepDependencyLines(TrimAll(lines))
  }

  /** Lines are handled one at a time and kept in file order. */
  lemma ReadDependenciesAppend(a: seq<string>, b: seq<string>)
    ensures ReadDependencies(a + b) == ReadDependencies(a) + ReadDependencies(b)
  {
    assert TrimAll(a + b) == TrimAll(a) + TrimAll(b) by {
      TrimAllAppend(a, b);
    }
    KeepAppend(TrimAll(a), TrimAll(b));
  }

  lemma TrimAllAppend(a: seq<string>, b: seq<string>)
    ensures TrimAll(a + b) == TrimAll(a) + TrimAll(b)
  {
    MapAppend(a, b, JavaTrim);
  }

  /** The bundled resource as text. */
  function DependenciesFromText(resource: Option<string>): (r: seq<string>)
    ensures resource.None? ==> r == []
    ensures resource.Some? ==> r == ReadDependencies(ReadLines(resource.value))
  {
    match resource
    case None => []
    case Some(t) => ReadDependencies(ReadLines(t))
  }

  // ---------------------------------------------------------------------
  // Class path

  /** One class-path URL: the running jar, or what a path addresses in the
      library directory (the empty path is the library directory itself). */
  datatype ClassPathEntry = OwnJar | Library(path: seq<nat>)

  /** The lookup result of every dependency, in order. */
  function Lookups(lib: seq<Node>, deps: seq<string>): (r: seq<Option<seq<nat>>>)
    ensures |r| == |deps| && forall i :: 0 <= i < |deps| ==> r[i] == FindJarFile(lib, deps[i])
  {
    seq(|deps|, i requires 0 <= i < |deps| => FindJarFile(lib, deps[i]))
  }

  /** The library jars found for `deps`, in dependency order. */
  function FoundJars(lib: seq<Node>, deps: seq<string>): (r: seq<seq<nat>>)
    ensures |r| <= |deps|
    ensures forall i :: 0 <= i < |r| ==> Some(r[i]) in Lookups(lib, deps)
    ensures forall d :: d in deps && FindJarFile(lib, d).Some? ==> FindJarFile(lib, d).value in r
  {
    if deps == [] then []
    else
      var rest := FoundJars(lib, deps[1..]);
      FoundJarsStep(lib, deps, rest);
      PrependFound(FindJarFile(lib, deps[0]), rest)
  }

  /** Finding distributes over concatenation: the jars found for `a + b`
      are those found for `a`, in order, then those found for `b`; with
      the one-dependency case this pins the result to the found jars in
      dependency order, each missing one skipped. */
  lemma {:induction false} FoundJarsAppend(lib: seq<Node>, a: seq<string>, b: seq<string>)
    ensures FoundJars(lib, a + b) == FoundJars(lib, a) + FoundJars(lib, b)
  {
    if a != [] {
      var ab := a + b;
      assert ab[0] == a[0] && ab[1..] == a[1..] + b;
      FoundJarsAppend(lib, a[1..], b);
      FoundJarsCons(lib, ab);
      FoundJarsCons(lib, a);
      PrependFoundAppend(FindJarFile(lib, a[0]), FoundJars(lib, a[1..]), FoundJars(lib, b));
    } else {
      assert a + b == b;
    }
  }

  /** A single dependency contributes its jar when it is found, and
      nothing otherwise. */
  lemma FoundJarsSingle(lib: seq<Node>, dep: string)
    ensures FoundJars(lib, [dep]) == if FindJarFile(lib, dep).Some? then [FindJarFile(lib, dep).value] else []
  {
    FoundJarsCons(lib, [dep]);
    assert [dep][1..] == [];
  }

  lemma FoundJarsCons(lib: seq<Node>, deps: seq<string>)
    requires deps != []
    ensures FoundJars(lib, deps) == PrependFound(FindJarFile(lib, deps[0]), FoundJars(lib, deps[1..]))
  {
  }

  lemma PrependFoundAppend(found: Option<seq<nat>>, x: seq<seq<nat>>, y: seq<seq<nat>>)
    ensures PrependFound(found, x + y) == PrependFound(found, x) + y
  {
  }

  /** The found jar, if any, before the ones already found. */
  function PrependFound(found: Option<seq<nat>>, rest: seq<seq<nat>>): (r: seq<seq<nat>>)
    ensures found.None? ==> r == rest
    ensures found.Some? ==> |r| == |rest| + 1 && r[0] == found.value && r[1..] == rest
  {
    match found
    case Some(p) => [p] + rest
    case None => rest
  }

  lemma FoundJarsStep(lib: seq<Node>, deps: seq<string>, rest: seq<seq<nat>>)
    requires deps != [] && |rest| <= |deps| - 1
    requires forall i :: 0 <= i < |rest| ==> Some(rest[i]) in Lookups(lib, deps[1..])
    requires forall d :: d in deps[1..] && FindJarFile(lib, d).Some? ==> FindJarFile(lib, d).value in rest
    ensures var r := PrependFound(FindJarFile(lib, deps[0]), rest);
      |r| <= |deps| &&
      (forall i :: 0 <= i < |r| ==> Some(r[i]) in Lookups(lib, deps)) &&
      (forall d :: d in deps && FindJarFile(lib, d).Some? ==> FindJarFile(lib, d).value in r)
  {
    var r := PrependFound(FindJarFile(lib, deps[0]), rest);
    LookupsCons(lib, deps);
    forall i | 0 <= i < |r|
      ensures Some(r[i]) in Lookups(lib, deps)
    {
      if r != rest && i == 0 {
        assert Lookups(lib, deps)[0] == Some(r[0]);
      } else if r != rest {
        assert r[i] == rest[i - 1];
      }
    }
  }

  lemma LookupsCons(lib: seq<Node>, deps: seq<string>)
    requires deps != []
    ensures Lookups(lib, deps) == [FindJarFile(lib, deps[0])] + Lookups(lib, deps[1..])
    ensures forall d :: d in deps <==> d == deps[0] || d in deps[1..]
  {
    assert deps == [deps[0]] + deps[1..];
  }

  /** The class path: the running jar first, then the jar found for each
      dependency, skipping the ones not found; when the library directory
      is missing or not a directory, only the running jar. */
  function ClassPath(libDir: Option<Node>, deps: seq<string>): (r: seq<ClassPathEntry>)
    ensures |r| >= 1 && r[0] == OwnJar
    ensures forall i :: 1 <= i < |r| ==> r[i].Library?
    ensures libDir.None? || libDir.value.File? ==> r == [OwnJar]
    ensures libDir.Some? && libDir.value.Dir? ==>
      |r| == 1 + |FoundJars(libDir.value.children, deps)| &&
      forall i :: 1 <= i < |r| ==> r[i].path == FoundJars(libDir.value.children, deps)[i - 1]
  {
    match libDir
    case Some(Dir(_, lib)) => [OwnJar] + LibraryEntries(FoundJars(lib, deps))
    case _ => [OwnJar]
  }

  function LibraryEntries(found: seq<seq<nat>>): (r: seq<ClassPathEntry>)
    ensures |r| == |found| && forall i :: 0 <= i < |found| ==> r[i] == Library(found[i])
  {
    seq(|found|, i requires 0 <= i < |found| => Library(found[i]))
  }

  /** When every dependency is found, the class path lists them all, in
      order, after the running jar. */
  lemma {:induction false} AllFoundInOrder(lib: seq<Node>, deps: seq<string>)
    requires forall d :: d in deps ==> FindJarFile(lib, d).Some?
    ensures |FoundJars(lib, deps)| == |deps|
    ensures forall i :: 0 <= i < |deps| ==> FoundJars(lib, deps)[i] == FindJarFile(lib, deps[i]).value
  {
    if deps != [] {
      var rest := deps[1..];
      assert FindJarFile(lib, deps[0]).Some? && forall d :: d in rest ==> FindJarFile(lib, d).Some? by {
        LookupsCons(lib, deps);
      }
      AllFoundInOrder(lib, rest);
      assert FoundJars(lib, deps) == [FindJarFile(lib, deps[0]).value] + FoundJars(lib, rest);
      forall i | 1 <= i < |deps|
        ensures FoundJars(lib, deps)[i] == FindJarFile(lib, deps[i]).value
      {
        assert rest[i - 1] == deps[i];
      }
    }
  }

  // ---------------------------------------------------------------------
  // RuntimeClassLoader.loadClass

  const RuntimeClassLoaderName := BootstrapMainClass + "$RuntimeClassLoader"

  /** Platform classes and the bootstrap's own classes must come from the
      parent. */
  predicate ParentOnly(name: string): (r: bool)
    ensures r ==> '.' in name
    ensures ChildFirstNamespace(name) ==> !r
  {
    assert StartsWith(name, "javax.") ==> name[5] == '.' && name[..4] == name[..6][..4];
    assert StartsWith(name, "java.") ==> name[4] == '.' && name[..4] == name[..5][..4];
    assert StartsWith(name, "sun.") || StartsWith(name, "jdk.") ==> name[3] == '.';
    assert name == BootstrapMainClass || name == RuntimeClassLoaderName ==>
      name[3] == '.' && name[..|LoaderPackage|] == LoaderPackage;
    || StartsWith(name, "java.") || StartsWith(name, "javax.")
    || StartsWith(name, "sun.") || StartsWith(name, "jdk.")
    || name == BootstrapMainClass || name == RuntimeClassLoaderName
  }

  /** A name outside `java*`, `sun.`, `jdk.` and the bootstrap's package. */
  predicate ChildFirstNamespace(name: string) {
    && !StartsWith(name, "java") && !StartsWith(name, "sun.") && !StartsWith(name, "jdk.")
    && !StartsWith(name, LoaderPackage)
  }

  /** The package of the bootstrap's own classes. */
  const LoaderPackage := "net.cubizor.gradle.loader."

  /** Where a class came from; no value means `ClassNotFoundException`. */
  datatype Origin = AlreadyLoaded | FromOwnUrls | FromParent

  /** `loadClass` against the classes this loader already defined, those
      its URLs hold and those the parent can load. The inherited
      `URLClassLoader.loadClass` asks the parent before the loader's own
      URLs, so parent-only names still fall back to the URLs, and the final
      fallback of a child-first name tries the parent only. */
  function LoadClass(name: string, loaded: set<string>, own: set<string>, parent: set<string>): (r: Option<Origin>)
    ensures name in loaded ==> r == Some(AlreadyLoaded)
    ensures name !in loaded && ParentOnly(name) && name in parent ==> r == Some(FromParent)
    ensures name !in loaded && !ParentOnly(name) && name in own ==> r == Some(FromOwnUrls)
    ensures r.None? <==> name !in loaded && name !in own && name !in parent
    ensures r == Some(FromOwnUrls) ==> name in own
    ensures r == Some(FromParent) ==> name in parent
  {
    if name in loaded then Some(AlreadyLoaded)
    else if ParentOnly(name) then
      if name in parent then Some(FromParent)
      else if name in own then Some(FromOwnUrls)
      else None
    else if name in own then Some(FromOwnUrls)
    else if name in parent then Some(FromParent)
    else None
  }

  /** The two delegation orders differ only for a class both sides can
      load: there the application's copy shadows the parent's. */
  lemma ChildFirstShadowsParent(name: string, own: set<string>, parent: set<string>)
    requires !ParentOnly(name) && name in own && name in parent
    ensures LoadClass(name, {}, own, parent) == Some(FromOwnUrls)
  {
  }

  /** The standard parent-first delegation of `ClassLoader.loadClass`, as
      a reference: already defined, else the parent, else the own URLs. */
  function ParentFirstLoad(name: string, loaded: set<string>, own: set<string>, parent: set<string>): (r: Option<Origin>)
    ensures r.None? <==> name !in loaded && name !in own && name !in parent
  {
    if name in loaded then Some(AlreadyLoaded)
    else if name in parent then Some(FromParent)
    else if name in own then Some(FromOwnUrls)
    else None
  }

  /** The child-first loader departs from parent-first delegation exactly
      for a class not yet defined, outside the parent-only namespaces, that
      both its URLs and the parent supply; there it takes its own copy. */
  lemma LoadClassVersusParentFirst(name: string, loaded: set<string>, own: set<string>, parent: set<string>)
    ensures LoadClass(name, loaded, own, parent) != ParentFirstLoad(name, loaded, own, parent)
        <==> name !in loaded && !ParentOnly(name) && name in own && name in parent
    ensures LoadClass(name, loaded, own, parent) != ParentFirstLoad(name, loaded, own, parent) ==>
      LoadClass(name, loaded, own, parent) == Some(FromOwnUrls) && ParentFirstLoad(name, loaded, own, parent) == Some(FromParent)
  {
  }

  // ---------------------------------------------------------------------
  // Running the main class

  /** What reflection finds as `main(String[])`. */
  datatype MainMethod = NoMainMethod | StaticMain | InstanceMain

  /** How the application's main method ends. */
  datatype AppRun = Returns | Throws(message: string)

  /** The end of `BootstrapMain.main`: the application ran, or an error
      was reported and the JVM exits with the status. */
  datatype BootOutcome = Ran | Exit(status: int, message: string)

  const NoMainClassMessage := "[RuntimeDependency] ERROR: No Original-Main-Class specified!"

  /** `main` after the configuration is settled: no (or an empty) main
      class exits before anything is loaded; a class the loader cannot
      find, a missing `main(String[])` or any exception from invoking it,
      including the application's own, exits with status 1. An instance
      `main` is invoked without a receiver and fails as well. */
  function RunMain(config: BootConfig, loaded: set<string>, own: set<string>, parent: set<string>,
                   mainMethod: MainMethod, run: AppRun): (r: BootOutcome)
    ensures r.Exit? ==> r.status == 1
    ensures config.mainClass.None? || config.mainClass.value == "" ==> r == Exit(1, NoMainClassMessage)
    ensures r == Ran <==>
      config.mainClass.Some? && config.mainClass.value != "" &&
      mainMethod.StaticMain? && run.Returns? &&
      LoadClass(config.mainClass.value, loaded, own, parent).Some?
  {
    match config.mainClass
    case None => Exit(1, NoMainClassMessage)
    case Some(mc) =>
      if mc == "" then Exit(1, NoMainClassMessage)
      else if LoadClass(mc, loaded, own, parent).None? then
        Exit(1, "[RuntimeDependency] ERROR: Main class not found: " + mc)
      else if mainMethod.NoMainMethod? then
        Exit(1, "[RuntimeDependency] ERROR: Main method not found in: " + mc)
      else if mainMethod.InstanceMain? || run.Throws? then
        Exit(1, "[RuntimeDependency] ERROR: Failed to run main class")
      else Ran
  }

  /** Started without the main-class property, the bootstrap runs what the
      manifest's `Original-Main-Class` names: with no readable manifest, or
      no or an empty value there, it exits with status 1 before anything is
      loaded; otherwise the application runs exactly when the loader finds
      that class and it has a static `main` that returns. */
  lemma RunsManifestMainClass(libraryProperty: Option<string>, manifest: Option<Attributes>,
                              loaded: set<string>, own: set<string>, parent: set<string>,
                              mainMethod: MainMethod, run: AppRun)
    ensures var v := if manifest.Some? then GetValue(manifest.value, "Original-Main-Class") else None;
      v.None? || v.value == "" ==>
        RunMain(ResolveConfig(None, libraryProperty, manifest), loaded, own, parent, mainMethod, run) == Exit(1, NoMainClassMessage)
    ensures RunMain(ResolveConfig(None, libraryProperty, manifest), loaded, own, parent, mainMethod, run) == Ran <==>
      && manifest.Some?
      && GetValue(manifest.value, "Original-Main-Class").Some?
      && GetValue(manifest.value, "Original-Main-Class").value != ""
      && mainMethod.StaticMain? && run.Returns?
      && LoadClass(GetValue(manifest.value, "Original-Main-Class").value, loaded, own, parent).Some?
  {
  }
}
