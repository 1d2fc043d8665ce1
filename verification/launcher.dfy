/** The standalone launcher (`LauncherBootstrap`) and its class loader
    (`RuntimeDependencyClassLoader`): configuration from system properties
    and environment variables, the default library directory next to the
    running jar, and the invocation of the real main class with the
    thread's context class loader swapped in and restored afterwards. */
module Launcher {
  import opened Common
  import opened Text
  import opened FileTree
  import opened BootstrapMain

  const LibraryPathProperty := "runtime.dependency.library.path"
  const MainClassProperty := "runtime.dependency.main.class"
  const LibraryPathEnv := "RUNTIME_DEPENDENCY_LIBRARY_PATH"
  const MainClassEnv := "RUNTIME_DEPENDENCY_MAIN_CLASS"
  const DefaultLibraryDir := "runtime-dependencies"

  // ---------------------------------------------------------------------
  // Paths

  /** An absolute path as its segments below the root. */
  type PathSegments = seq<string>

  /** The path as `File.absolutePath` prints it. */
  function PathText(p: PathSegments): string {
    "/" + JoinWith(p, '/')
  }

  /** `getJarLocation`: the directory holding the running jar, or the code
      source itself when it is a directory (classes run unpacked). */
  function JarLocation(codeSource: PathSegments, isFile: bool): (r: PathSegments)
    ensures !isFile ==> r == codeSource
    ensures isFile && codeSource != [] ==> r + [codeSource[|codeSource| - 1]] == codeSource
  {
    if isFile && codeSource != [] then codeSource[..|codeSource| - 1] else codeSource
  }

  /** `getLibraryPath`: the property, else the environment variable, else
      `runtime-dependencies` beside the jar. Any value that is set is
      taken, even an empty one. */
  function LibraryPath(property: Option<string>, env: Option<string>, codeSource: PathSegments, isFile: bool): (r: string)
    ensures property.Some? ==> r == property.value
    ensures property.None? && env.Some? ==> r == env.value
    ensures property.None? && env.None? ==> r == PathText(JarLocation(codeSource, isFile) + [DefaultLibraryDir])
  {
    match property
    case Some(p) => p
    case None =>
      match env
      case Some(e) => e
      case None => PathText(JarLocation(codeSource, isFile) + [DefaultLibraryDir])
  }

  /** The default directory is a sibling of the jar file. */
  lemma DefaultIsBesideJar(dir: PathSegments, jar: string)
    ensures LibraryPath(None, None, dir + [jar], true) == PathText(dir + [DefaultLibraryDir])
  {
    assert (dir + [jar])[..|dir + [jar]| - 1] == dir;
  }

  // ---------------------------------------------------------------------
  // Main class

  /** The message naming both ways to give the main class. */
  function NoMainClassText(property: string, env: string): (r: string)
    ensures Contains(r, property) && Contains(r, env)
  {
    var head := "Main class not specified! Set one of:\n" + "  - System property: -D";
    var mid := "=com.example.Main\n" + "  - Environment variable: ";
    var tail := "=com.example.Main\n" + "  - Or configure in build.gradle.kts";
    ContainsSecondAndFourth(head, property, mid, env, tail);
    head + property + mid + env + tail
  }

  const NoMainClassMessage := NoMainClassText(MainClassProperty, MainClassEnv)

  /** `getMainClassName`: the property, else the environment variable;
      with neither, an error whose message names both. */
  function MainClassName(property: Option<string>, env: Option<string>): (r: Result<string>)
    ensures property.Some? ==> r == Ok(property.value)
    ensures property.None? && env.Some? ==> r == Ok(env.value)
    ensures property.None? && env.None? ==> r.Err? && Contains(r.message, MainClassProperty) && Contains(r.message, MainClassEnv)
  {
    match property
    case Some(p) => Ok(p)
    case None =>
      match env
      case Some(e) => Ok(e)
      case None => Err(NoMainClassText(MainClassProperty, MainClassEnv))
  }

  /** Position `i` holds a candidate and none before it is set. */
  predicate FirstSetAt(candidates: seq<Option<string>>, i: int) {
    0 <= i < |candidates| && forall j :: 0 <= j < i ==> candidates[j].None?
  }

  /** The first candidate that is set, as a reference for the launcher's
      lookups: each consults its sources in order and stops at the first
      one present, whatever its value. */
  function FirstSet(candidates: seq<Option<string>>): (r: Option<string>)
    ensures r.Some? <==> exists i :: 0 <= i < |candidates| && candidates[i].Some?
    ensures r.Some? ==> exists i :: FirstSetAt(candidates, i) && candidates[i] == r
  {
    if candidates == [] then None
    else if candidates[0].Some? then candidates[0]
    else
      var rest := FirstSet(candidates[1..]);
      assert forall i :: 0 < i < |candidates| ==> candidates[i] == candidates[1..][i - 1];
      assert forall i :: FirstSetAt(candidates[1..], i) ==> FirstSetAt(candidates, i + 1);
      rest
  }

  /** The library path and the main class name follow the same order: the
      system property, then the environment variable; only the library
      path has a fallback of its own, and only the main class fails. */
  lemma LookupsTakeFirstSet(property: Option<string>, env: Option<string>, codeSource: PathSegments, isFile: bool)
    ensures var f := FirstSet([property, env]);
      LibraryPath(property, env, codeSource, isFile) ==
        if f.Some? then f.value else PathText(JarLocation(codeSource, isFile) + [DefaultLibraryDir])
    ensures MainClassName(property, env).Ok? <==> FirstSet([property, env]).Some?
    ensures MainClassName(property, env).Ok? ==> MainClassName(property, env).value == FirstSet([property, env]).value
  {
    assert [property, env][1..] == [env];
    assert [env][1..] == [];
  }

  // ---------------------------------------------------------------------
  // RuntimeDependencyClassLoader

  /** Class loaders are known by identity only. */
  type LoaderId = nat

  const SystemLoader: LoaderId := 0

  /** A `URLClassLoader` over the collected jars with its parent. */
  datatype RuntimeLoader = RuntimeLoader(urls: seq<seq<nat>>, parent: LoaderId)

  /** The constructor: the jars under the library path, if it names an
      existing directory, and the system class loader as parent unless
      another is given. The path-string constructor makes the same `File`
      first, which here is the path itself. */
  function NewRuntimeLoader(fs: map<string, Node>, libraryPath: string, parent: Option<LoaderId>): (r: RuntimeLoader)
    ensures r.parent == parent.OrElse(SystemLoader)
    ensures libraryPath !in fs || fs[libraryPath].File? ==> r.urls == []
    ensures libraryPath in fs && fs[libraryPath].Dir? ==>
      forall i :: 0 <= i < |r.urls| ==> JarFrom(fs[libraryPath].children, 0, r.urls[i])
  {
    RuntimeLoader(CollectJarUrls(Get(fs, libraryPath)), parent.OrElse(SystemLoader))
  }

  /** Every jar below the library directory ends up on the class path. */
  lemma NewRuntimeLoaderComplete(fs: map<string, Node>, libraryPath: string, p: seq<nat>)
    requires libraryPath in fs && fs[libraryPath].Dir?
    requires JarFrom(fs[libraryPath].children, 0, p)
    ensures p in NewRuntimeLoader(fs, libraryPath, None).urls
  {
    WalkComplete(fs[libraryPath].children, 0, p);
  }

  // ---------------------------------------------------------------------
  // invokeMainClass

  /** What the application's `main` does: it may set the context class
      loader itself, and it returns or throws. */
  datatype AppEffect = AppEffect(setsContext: Option<LoaderId>, throws: bool)

  /** The end of an invocation; a failure carries the exception message,
      which is null for an exception the application threw (reflection
      wraps it without a message). `contextInFinally` is the thread's
      context class loader when the `finally` block starts, `contextAfter`
      the one it leaves behind. */
  datatype Invocation = Invocation(failure: Option<Option<string>>, contextSeenByApp: Option<LoaderId>,
                                   contextInFinally: LoaderId, contextAfter: LoaderId)

  /** `invokeMainClass`: the context class loader is switched to `loader`
      for loading and running, the application may switch it again, and
      the `finally` block restores the original whatever happened in
      between. */
  function InvokeMainClass(contextBefore: LoaderId, loader: LoaderId, loadable: set<string>, className: string,
                           mainMethod: MainMethod, app: AppEffect): (r: Invocation)
    ensures r.contextAfter == contextBefore
    ensures r.contextSeenByApp.Some? ==> r.contextSeenByApp.value == loader
    ensures r.contextSeenByApp.Some? <==> className in loadable && mainMethod.StaticMain?
    ensures r.contextInFinally != loader ==> r.contextSeenByApp.Some? && app.setsContext == Some(r.contextInFinally)
    ensures r.failure.None? <==> className in loadable && mainMethod.StaticMain? && !app.throws
    ensures className !in loadable ==> r.failure == Some(Some(className))
    ensures className in loadable && mainMethod.NoMainMethod? ==>
      r.failure == Some(Some("Main class " + className + " does not have a main(String[]) method"))
    ensures className in loadable && mainMethod.InstanceMain? ==>
      r.failure == Some(Some("Main method in " + className + " is not static"))
    ensures className in loadable && mainMethod.StaticMain? && app.throws ==> r.failure == Some(None)
  {
    if className !in loadable then Invocation(Some(Some(className)), None, loader, contextBefore)
    else if mainMethod.NoMainMethod? then
      Invocation(Some(Some("Main class " + className + " does not have a main(String[]) method")), None, loader, contextBefore)
    else if mainMethod.InstanceMain? then
      Invocation(Some(Some("Main method in " + className + " is not static")), None, loader, contextBefore)
    else
      var inFinally := if app.setsContext.Some? then app.setsContext.value else loader;
      Invocation(if app.throws then Some(None) else None, Some(loader), inFinally, contextBefore)
  }

  /** Restoration holds even when the application installs a loader of its
      own and then throws: the `finally` block finds the application's
      loader installed and puts the original back. */
  lemma ContextRestoredAfterAppChangesIt(before: LoaderId, loader: LoaderId, other: LoaderId, cls: string)
    ensures var r := InvokeMainClass(before, loader, {cls}, cls, StaticMain, AppEffect(Some(other), true));
      r.contextInFinally == other && r.contextAfter == before && r.contextSeenByApp == Some(loader) && r.failure == Some(None)
  {
  }

  // ---------------------------------------------------------------------
  // main

  /** How the launcher ends: the application ran, or the failure was
      reported and the process exits with status 1. */
  datatype LaunchOutcome = Launched(loader: RuntimeLoader) | ExitFailure(status: int, message: string)

  /** Environment of one launch. */
  datatype LaunchEnv = LaunchEnv(
    libraryProperty: Option<string>, libraryEnv: Option<string>,
    mainProperty: Option<string>, mainEnv: Option<string>,
    codeSource: PathSegments, codeSourceIsFile: bool,
    fs: map<string, Node>)

  /** Kotlin's `"$x"` of a nullable message. */
  function MessageText(m: Option<string>): string {
    match m
    case Some(s) => s
    case None => "null"
  }

  /** What every launch failure message starts with. */
  const LaunchFailurePrefix := "[Bootstrap] Failed to launch application: "

  /** `main`: configuration, class loader, invocation; any exception on
      the way is reported as `Failed to launch application: <message>` and
      ends the process with status 1. */
  function LauncherMain(env: LaunchEnv, contextBefore: LoaderId, loaderId: LoaderId, loadable: set<string>,
                        mainMethod: MainMethod, app: AppEffect): (r: LaunchOutcome)
    ensures r.ExitFailure? ==> r.status == 1
    ensures env.mainProperty.None? && env.mainEnv.None? ==>
      r == ExitFailure(1, LaunchFailurePrefix + NoMainClassMessage)
    ensures r.Launched? <==>
      MainClassName(env.mainProperty, env.mainEnv).Ok? &&
      MainClassName(env.mainProperty, env.mainEnv).value in loadable && mainMethod.StaticMain? && !app.throws
    ensures r.Launched? ==>
      r.loader == NewRuntimeLoader(env.fs, LibraryPath(env.libraryProperty, env.libraryEnv, env.codeSource, env.codeSourceIsFile), None)
  {
    var libraryPath := LibraryPath(env.libraryProperty, env.libraryEnv, env.codeSource, env.codeSourceIsFile);
    match MainClassName(env.mainProperty, env.mainEnv)
    case Err(m) => ExitFailure(1, LaunchFailurePrefix + m)
    case Ok(mainClass) =>
      var loader := NewRuntimeLoader(env.fs, libraryPath, None);
      var run := InvokeMainClass(contextBefore, loaderId, loadable, mainClass, mainMethod, app);
      match run.failure
      case Some(m) => ExitFailure(1, LaunchFailurePrefix + MessageText(m))
      case None => Launched(loader)
  }

  /** The launcher is the main-class lookup followed by the invocation on
      the runtime loader: a lookup failure or an invocation failure ends
      in status 1 with that failure's text after the common prefix, and
      the launch succeeds exactly when the invocation does. */
  lemma LauncherMainIsInvocation(env: LaunchEnv, contextBefore: LoaderId, loaderId: LoaderId, loadable: set<string>,
                                 mainMethod: MainMethod, app: AppEffect)
    ensures var mc := MainClassName(env.mainProperty, env.mainEnv);
      mc.Err? ==> LauncherMain(env, contextBefore, loaderId, loadable, mainMethod, app) == ExitFailure(1, LaunchFailurePrefix + mc.message)
    ensures var mc := MainClassName(env.mainProperty, env.mainEnv);
      var r := LauncherMain(env, contextBefore, loaderId, loadable, mainMethod, app);
      mc.Ok? ==>
        var inv := InvokeMainClass(contextBefore, loaderId, loadable, mc.value, mainMethod, app);
        && (r.Launched? <==> inv.failure.None?)
        && (inv.failure.Some? ==> r == ExitFailure(1, LaunchFailurePrefix + MessageText(inv.failure.value)))
  {
  }
}
