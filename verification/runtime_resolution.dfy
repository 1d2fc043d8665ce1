/** The run-time half of the generated Velocity utility class: turning the
    decoded manifest into resolver repositories (`buildRepositories`),
    resolving every coordinate (`resolveDependencies`) and the one-shot
    `initialize` that installs the resulting class loader as the thread's
    context loader. Maven Resolver itself is a parameter: a function from a
    coordinate and the repository list to the files it produced or a
    failure. */
module RuntimeResolution {
  import opened Common
  import opened Text
  import opened Models
  import opened ManifestCodec

  /** A username/password pair attached to a remote repository. */
  datatype Authentication = Authentication(username: string, password: string)

  /** Maven Resolver's `RemoteRepository`: id, layout, URL and optional
      authentication. */
  datatype RemoteRepository = RemoteRepository(id: string, layout: string, url: string, auth: Option<Authentication>)

  /** `System.getenv` as a map from variable name to value. */
  type Environment = map<string, string>

  function UsernameVariable(prefix: string): string {
    prefix + "_USERNAME"
  }

  function PasswordVariable(prefix: string): string {
    prefix + "_PASSWORD"
  }

  /** The credentials `buildRepositories` attaches to one repository. */
  function Credentials(info: ManifestRepository, env: Environment): (r: Option<Authentication>)
    ensures r.Some? <==>
      && info.needsAuth && info.envPrefix != ""
      && UsernameVariable(info.envPrefix) in env && PasswordVariable(info.envPrefix) in env
    ensures r.Some? ==>
      r.value == Authentication(env[UsernameVariable(info.envPrefix)], env[PasswordVariable(info.envPrefix)])
  {
    if info.needsAuth && info.envPrefix != "" then
      var user := Get(env, UsernameVariable(info.envPrefix));
      var pass := Get(env, PasswordVariable(info.envPrefix));
      if user.Some? && pass.Some? then Some(Authentication(user.value, pass.value)) else None
    else None
  }

  /** One resolver repository: the record's name as id, its URL, the
      default layout, and credentials exactly when the record asks for
      them and both environment variables are set. */
  function BuildRepository(info: ManifestRepository, env: Environment): (r: RemoteRepository)
    ensures r.id == info.name && r.url == info.url && r.layout == "default"
    ensures r.auth.Some? <==>
      && info.needsAuth && info.envPrefix != ""
      && UsernameVariable(info.envPrefix) in env && PasswordVariable(info.envPrefix) in env
    ensures r.auth.Some? ==>
      r.auth.value.username == env[UsernameVariable(info.envPrefix)] &&
      r.auth.value.password == env[PasswordVariable(info.envPrefix)]
  {
    RemoteRepository(info.name, "default", info.url, Credentials(info, env))
  }

  /** `buildRepositories`: every decoded repository, in order, with
      credentials from the environment when the manifest asks for them. */
  function BuildRepositories(infos: seq<ManifestRepository>, env: Environment): (r: seq<RemoteRepository>)
    ensures |r| == |infos|
    ensures forall i :: 0 <= i < |infos| ==>
      && r[i].id == infos[i].name && r[i].url == infos[i].url && r[i].layout == "default"
      && r[i].auth == Credentials(infos[i], env)
  {
    if infos == [] then [] else [BuildRepository(infos[0], env)] + BuildRepositories(infos[1..], env)
  }

  // ---------------------------------------------------------------------
  // Resolution

  /** One artifact of a resolution result: its file may be null and may
      not exist on disk. */
  datatype ArtifactFile = ArtifactFile(path: Option<string>, onDisk: bool)

  /** What Maven Resolver reports for one root coordinate. */
  datatype Resolution = Resolved(artifacts: seq<ArtifactFile>) | ResolutionFailed(message: string)

  /** The resolver as seen by the generated code. */
  type Resolver = (Coordinate, seq<RemoteRepository>) -> Resolution

  /** An artifact the loader keeps: its file is not null and exists. */
  predicate Usable(a: ArtifactFile) {
    a.path.Some? && a.onDisk
  }

  /** The artifact files the loader takes from one result: non-null paths
      of files that exist, in result order. */
  function UsableFiles(artifacts: seq<ArtifactFile>): (r: seq<string>)
    ensures |r| <= |artifacts|
    ensures forall p :: p in r <==> exists a :: a in artifacts && a.path == Some(p) && a.onDisk
    ensures |artifacts| == 1 && Usable(artifacts[0]) ==> r == [artifacts[0].path.value]
    ensures |artifacts| == 1 && !Usable(artifacts[0]) ==> r == []
  {
    if artifacts == [] then []
    else
      var a := artifacts[0];
      var rest := UsableFiles(artifacts[1..]);
      assert forall x :: x in artifacts <==> x == a || x in artifacts[1..];
      if Usable(a) then [a.path.value] + rest else rest
  }

  /** Filtering distributes over concatenation: together with the
      one-artifact cases of `UsableFiles`, this fixes the order and the
      number of copies of every kept file. */
  lemma {:induction false} UsableFilesAppend(a: seq<ArtifactFile>, b: seq<ArtifactFile>)
    ensures UsableFiles(a + b) == UsableFiles(a) + UsableFiles(b)
    decreases |a|
  {
    if a != [] {
      assert (a + b)[1..] == a[1..] + b;
      UsableFilesAppend(a[1..], b);
    } else {
      assert a + b == b;
    }
  }

  /** The concatenation of a sequence of file lists, in order. */
  function Flatten(xss: seq<seq<string>>): (r: seq<string>)
    ensures forall p :: p in r <==> exists i :: 0 <= i < |xss| && p in xss[i]
  {
    if xss == [] then []
    else
      assert forall i :: 1 <= i < |xss| ==> xss[i] == xss[1..][i - 1];
      xss[0] + Flatten(xss[1..])
  }

  /** The usable files of each coordinate's result, coordinate by
      coordinate; nothing for a coordinate that failed. */
  function FilesPerCoordinate(resolve: Resolver, repos: seq<RemoteRepository>, deps: seq<Coordinate>): (r: seq<seq<string>>)
    ensures |r| == |deps|
    ensures forall i :: 0 <= i < |deps| && resolve(deps[i], repos).Resolved? ==>
      r[i] == UsableFiles(resolve(deps[i], repos).artifacts)
    ensures forall i :: 0 <= i < |deps| && resolve(deps[i], repos).ResolutionFailed? ==> r[i] == []
  {
    seq(|deps|, i requires 0 <= i < |deps| =>
      match resolve(deps[i], repos)
      case Resolved(artifacts) => UsableFiles(artifacts)
      case ResolutionFailed(_) => [])
  }

  /** Dropping the first coordinate drops its file list. */
  lemma FilesPerCoordinateTail(resolve: Resolver, repos: seq<RemoteRepository>, deps: seq<Coordinate>)
    requires deps != []
    ensures FilesPerCoordinate(resolve, repos, deps)[1..] == FilesPerCoordinate(resolve, repos, deps[1..])
  {
    var all := FilesPerCoordinate(resolve, repos, deps);
    var tail := FilesPerCoordinate(resolve, repos, deps[1..]);
    assert |all[1..]| == |tail|;
    forall i | 0 <= i < |tail|
      ensures all[1..][i] == tail[i]
    {
      assert deps[1..][i] == deps[i + 1];
    }
  }

  /** A file `resolveDependencies` contributes for coordinate `i`. */
  ghost predicate Contributes(resolve: Resolver, repos: seq<RemoteRepository>, deps: seq<Coordinate>, i: int, p: string) {
    0 <= i < |deps| && resolve(deps[i], repos).Resolved? && p in UsableFiles(resolve(deps[i], repos).artifacts)
  }

  /** Coordinate `i` is the first one the resolver fails on. */
  ghost predicate FirstFailure(resolve: Resolver, repos: seq<RemoteRepository>, deps: seq<Coordinate>, i: int) {
    && 0 <= i < |deps| && resolve(deps[i], repos).ResolutionFailed?
    && forall k :: 0 <= k < i ==> resolve(deps[k], repos).Resolved?
  }

  /** `resolveDependencies`: resolves the coordinates in order, collecting
      usable files; the first failure is rethrown and ends the loop. */
  function ResolveDependencies(resolve: Resolver, repos: seq<RemoteRepository>, deps: seq<Coordinate>): (r: Result<seq<string>>)
    ensures r.Ok? <==> forall i :: 0 <= i < |deps| ==> resolve(deps[i], repos).Resolved?
    ensures r.Ok? ==> forall p :: p in r.value <==> exists i :: Contributes(resolve, repos, deps, i, p)
    ensures r.Ok? ==> r.value == Flatten(FilesPerCoordinate(resolve, repos, deps))
    ensures r.Err? ==>
      exists i :: FirstFailure(resolve, repos, deps, i) && resolve(deps[i], repos) == ResolutionFailed(r.message)
  {
    if deps == [] then Ok([])
    else
      match resolve(deps[0], repos)
      case ResolutionFailed(m) =>
        assert FirstFailure(resolve, repos, deps, 0);
        Err(m)
      case Resolved(artifacts) =>
        var rest := ResolveDependencies(resolve, repos, deps[1..]);
        ResolvedHeadShifts(resolve, repos, deps);
        if rest.Err? then Err(rest.message)
        else
          ContributesAfterHead(resolve, repos, deps, rest.value);
          FilesPerCoordinateTail(resolve, repos, deps);
          Ok(UsableFiles(artifacts) + rest.value)
  }

  /** With the first coordinate resolved, the rest decides success, and the
      first failure among the rest is the first failure overall. */
  lemma ResolvedHeadShifts(resolve: Resolver, repos: seq<RemoteRepository>, deps: seq<Coordinate>)
    requires deps != [] && resolve(deps[0], repos).Resolved?
    ensures (forall i :: 0 <= i < |deps| ==> resolve(deps[i], repos).Resolved?) <==>
      (forall i :: 0 <= i < |deps| - 1 ==> resolve(deps[1..][i], repos).Resolved?)
    ensures forall i :: FirstFailure(resolve, repos, deps[1..], i) ==> FirstFailure(resolve, repos, deps, i + 1)
  {
    assert forall i :: 0 <= i < |deps| - 1 ==> deps[1..][i] == deps[i + 1];
  }

  /** The files of the first coordinate followed by those of the rest are
      the files every coordinate contributes. */
  lemma ContributesAfterHead(resolve: Resolver, repos: seq<RemoteRepository>, deps: seq<Coordinate>, rest: seq<string>)
    requires deps != [] && resolve(deps[0], repos).Resolved?
    requires forall p :: p in rest <==> exists i :: Contributes(resolve, repos, deps[1..], i, p)
    ensures forall p :: p in UsableFiles(resolve(deps[0], repos).artifacts) + rest <==>
      exists i :: Contributes(resolve, repos, deps, i, p)
  {
    assert forall p :: Contributes(resolve, repos, deps, 0, p) <==> p in UsableFiles(resolve(deps[0], repos).artifacts);
    assert forall p, i :: Contributes(resolve, repos, deps[1..], i, p) ==> Contributes(resolve, repos, deps, i + 1, p);
    assert forall p, i :: 1 <= i && Contributes(resolve, repos, deps, i, p) ==> Contributes(resolve, repos, deps[1..], i - 1, p);
  }

  // ---------------------------------------------------------------------
  // initialize

  /** The loader the thread's context slot holds: the host's own, or the
      runtime `URLClassLoader` over the resolved files. */
  datatype ContextLoader = HostLoader | RuntimeLoader(urls: seq<string>)

  /** The utility class's static state plus the thread's context slot. */
  datatype LoaderState = LoaderState(initialized: bool, runtimeLoader: Option<seq<string>>, context: ContextLoader)

  /** The outcome of `initialize`: the state afterwards, and the message
      of the `RuntimeException` thrown, if any. */
  datatype InitOutcome = InitOutcome(state: LoaderState, error: Option<string>)

  const InitFailure := "Failed to load runtime dependencies"

  /** `initialize`: does nothing once initialized; with no dependencies it
      only marks itself initialized; otherwise it resolves everything and
      installs the runtime loader, and a failure is wrapped and rethrown
      with nothing changed. */
  function Initialize(s: LoaderState, manifest: Option<string>, env: Environment, resolve: Resolver): (r: InitOutcome)
    ensures s.initialized ==> r == InitOutcome(s, None)
    ensures r.error.None? ==> r.state.initialized
    ensures r.error.Some? ==> r.error.value == InitFailure && r.state == s
    ensures r.state.context != s.context ==> r.state.runtimeLoader.Some? && r.state.context == RuntimeLoader(r.state.runtimeLoader.value)
  {
    if s.initialized then InitOutcome(s, None)
    else
      var data := ReadManifest(manifest);
      if data.dependencies == [] then InitOutcome(s.(initialized := true), None)
      else
        var repos := BuildRepositories(data.repositories, env);
        match ResolveDependencies(resolve, repos, data.dependencies)
        case Err(_) => InitOutcome(s, Some(InitFailure))
        case Ok(urls) => InitOutcome(LoaderState(true, Some(urls), RuntimeLoader(urls)), None)
  }

  /** A second `initialize` after a successful one changes nothing. */
  lemma InitializeIdempotent(s: LoaderState, manifest: Option<string>, env: Environment, resolve: Resolver)
    requires Initialize(s, manifest, env, resolve).error.None?
    ensures var once := Initialize(s, manifest, env, resolve).state;
      Initialize(once, manifest, env, resolve) == InitOutcome(once, None)
  {
  }

  /** A failed `initialize` leaves the class uninitialized, so a later call
      tries again from the start. */
  lemma FailedInitializeRetries(s: LoaderState, manifest: Option<string>, env: Environment, resolve: Resolver)
    requires !s.initialized
    requires Initialize(s, manifest, env, resolve).error.Some?
    ensures var after := Initialize(s, manifest, env, resolve).state;
      !after.initialized && Initialize(after, manifest, env, resolve) == Initialize(s, manifest, env, resolve)
  {
  }

  /** A successful `initialize` with dependencies installs a loader over
      exactly the usable files the resolver produced, coordinate by
      coordinate in manifest order. */
  lemma InitializeInstallsResolvedFiles(s: LoaderState, text: string, env: Environment, resolve: Resolver, p: string)
    requires !s.initialized
    requires Decode(text).dependencies != []
    requires Initialize(s, Some(text), env, resolve).error.None?
    ensures var after := Initialize(s, Some(text), env, resolve).state;
      var data := Decode(text);
      var repos := BuildRepositories(data.repositories, env);
      after.context.RuntimeLoader? &&
      after.context.urls == Flatten(FilesPerCoordinate(resolve, repos, data.dependencies)) &&
      (p in after.context.urls <==>
        exists i :: Contributes(resolve, repos, data.dependencies, i, p))
  {
  }

  // ---------------------------------------------------------------------
  // Encoder and runtime together

  /** The environment prefix is empty exactly when the repository name is. */
  lemma EnvPrefixEmpty(name: string)
    ensures EnvPrefix(name) == "" <==> name == ""
  {
  }

  /** For a repository the build wrote into the manifest, the runtime
      attaches credentials exactly when the build configured both
      credential properties, the name is not empty, and both environment
      variables derived from the name are set. */
  lemma RecordedCredentials(r: RepositoryInfo, env: Environment)
    ensures Credentials(Recorded(r), env).Some? <==>
      && r.usernameProperty.Some? && r.passwordProperty.Some? && r.name != ""
      && UsernameVariable(EnvPrefix(r.name)) in env && PasswordVariable(EnvPrefix(r.name)) in env
  {
    EnvPrefixEmpty(r.name);
  }

  /** Whatever the environment holds, the Maven Central repository the
      manifest always ends with is built last and without credentials. */
  lemma CentralNeverAuthenticated(deps: seq<DependencyInfo>, repos: OrderedMap<string, RepositoryInfo>, env: Environment)
    requires forall i :: 0 <= i < |deps| ==> EncodableDependency(deps[i])
    requires forall i :: 0 <= i < |repos| ==> EncodableRepository(repos[i].1)
    ensures var built := BuildRepositories(Decode(Encode(deps, repos)).repositories, env);
      built != [] && built[|built| - 1] == RemoteRepository(CentralName, "default", CentralUrl, None)
  {
    var rs := Decode(Encode(deps, repos)).repositories;
    EncodedEndsWithCentral(deps, repos);
    LastBuiltWithoutAuth(rs, env);
  }

  lemma EncodedEndsWithCentral(deps: seq<DependencyInfo>, repos: OrderedMap<string, RepositoryInfo>)
    requires forall i :: 0 <= i < |deps| ==> EncodableDependency(deps[i])
    requires forall i :: 0 <= i < |repos| ==> EncodableRepository(repos[i].1)
    ensures var rs := Decode(Encode(deps, repos)).repositories;
      rs != [] && rs[|rs| - 1] == CentralRecord
  {
    DecodeEncode(deps, repos);
    var written := RecordedAll(NonCentral(Values(repos)));
    assert (written + [CentralRecord])[|written|] == CentralRecord;
  }

  /** A repository record that asks for no credentials is built without
      any. */
  lemma LastBuiltWithoutAuth(infos: seq<ManifestRepository>, env: Environment)
    requires infos != [] && !infos[|infos| - 1].needsAuth
    ensures var built := BuildRepositories(infos, env);
      var last := infos[|infos| - 1];
      built != [] && built[|built| - 1] == RemoteRepository(last.name, "default", last.url, None)
  {
  }
}
