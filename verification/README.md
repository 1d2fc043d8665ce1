# RuntimeDependency, modelled in Dafny

RuntimeDependency is a Gradle plugin that keeps a plugin or application jar
small by deferring the download of its libraries to run time. At build time
it collects the project's Maven repositories, records the runtime
dependencies and the repositories in `META-INF/runtime-dependencies.txt`
(`DEP:group:artifact:version` and `REPO:name:url:needsAuth:envPrefix`
lines), and then either generates a Paper plugin loader class and points
`plugin.yml`/`paper-plugin.yml` at it, or rewrites the jar into a
standalone one. A standalone jar starts in `BootstrapMain`, which builds a
child-first class loader over the libraries and runs the original main
class. A second launcher, `LauncherBootstrap`, does the same with a class
loader over every jar below a library directory. The repository holds two
generations of the plugin: the current one under `gradle-plugin/` and an
older one under `src/`. Both are modelled where they differ.

The model is functional. Strings are `seq<char>`, Kotlin's insertion-ordered
maps are sequences of key/value pairs with unique keys, jar archives are
sequences of entries, directories are trees of named nodes, class loaders
are sets of class names, and everything the code reads from outside comes
in as a parameter: the environment, system properties, files, and Maven
Resolver. The resolver is a function from a coordinate and repositories to
a resolution result.

Modules follow the source files:

- `Common`, `Text` and `Models`: `Option`/`Result`, the Kotlin and Java
  string and list operations the code relies on, and the data classes of
  `Models.kt` together with the `LinkedHashMap` and `distinctBy`
  semantics.
- `ManifestCodec`: the manifest encoder of `GenerateDependencyManifestTask`,
  and the decoder `readManifest` that the generated utility class carries.
  The main law is that decoding the encoded manifest gives back the
  dependencies, the repositories that are written and the closing Maven
  Central record.
- `RuntimeResolution`: what the generated utility class does with a decoded
  manifest at server start. It covers `buildRepositories`,
  `resolveDependencies` and `initialize`.
- `RepositoryUtils` and `LegacyRepositoryUtils`: Maven Central and
  Maven-local detection, repository collection, naming and credentials, in
  the current and the older variant.
- `Tasks` and `LegacyTasks`: the download layout, the repository and
  credential choices of `generateLoaderClass`, and the `updatePluginYml`
  rewrite. The older variant's download layout and `updatePluginYml` are
  the same code as the current one, so the `Tasks` members serve both.
- `Plugin` and `LegacyPlugin`: mode selection, the standalone main-class
  check, jar names, `findRepositoryForArtifact`, `analyzeDependencies` and
  `detectPluginPackage`.
- `StandaloneJar`: `ConfigureStandaloneJarTask`. It covers the manifest
  override, the bootstrap and resolver extraction, and the first-writer-wins
  merge.
- `FileTree`, `BootstrapMain` and `Launcher`: the two launchers. They cover
  configuration precedence, dependency reading, jar search over a directory
  tree, class-loading delegation and the save/restore of the context class
  loader.
- `Pipeline`: lemmas that follow one value from the build side to the
  run-time side.

## Behaviour the model makes explicit

Each of these is proved as a lemma (named in brackets):

- The loader's decoder accepts a `REPO:` line that stops after the URL. It
  decodes to a repository without authentication and with an empty prefix
  (`ManifestCodec.ShortRepositoryLine`).
- The encoder always writes a closing `REPO:MavenCentral:…:false:` line,
  and the decoder installs it like any other repository
  (`ManifestCodec.CentralDecodes`, `RuntimeResolution.CentralNeverAuthenticated`).
- `BootstrapMain` reads every non-comment line of the dependency manifest
  as a jar file name. So the `DEP:` and `REPO:` records the plugin writes
  are looked up as jars (`Pipeline.BootstrapReadsRecordsAsJarNames`).
- The plugin records the library directory as
  `Runtime-Dependency-Library-Path`, but `BootstrapMain` reads
  `Library-Path`. The recorded value never takes effect
  (`Pipeline.RecordedLibraryPathUnread`). Setting the main class by system
  property also hides the manifest's `Library-Path`
  (`BootstrapMain.MainPropertyHidesManifestLibrary`).
- The standalone jar's manifest is written with `Attributes.writeMain`,
  which writes the main attributes only after a `Manifest-Version` (or
  `Signature-Version`) header. An input jar without a manifest, or with
  one lacking that header, gives a jar whose manifest has no `Main-Class`
  and no `Original-Main-Class` (`StandaloneJar.WrittenMainAttributes`,
  `Pipeline.BootstrapReadsRewrittenManifest`).
- A direct entry named like the jar is returned even when it is a directory
  (`FileTree.DirectDirectoryShadows`).
- A repository whose name ends in white space does not survive the
  manifest file. Its environment prefix keeps that white space and is
  written last on the line, and the decoder trims the line, so the prefix
  read back is shorter than the one written
  (`ManifestCodec.TrailingSpaceNameLosesPrefix`).
- The build looks up credentials under `<NAME>_USERNAME` with the name only
  upper-cased. The run-time loader replaces `-` and `.` with `_` as well.
  The two agree only for names without those characters
  (`Pipeline.CredentialVariablesAgree`).
- A jar whose version holds a dash, as `-SNAPSHOT` versions do, is filed
  under the text before its last dash rather than under the artifact name
  (`Tasks.DashedJarDestination`, `Pipeline.JarFiledUnderArtifactName`).
- Duplicate repository URLs are compared case-sensitively
  (`RepositoryUtils.DuplicateUrlIsCaseSensitive`). An unnamed repository can
  take over the entry of one explicitly named `maven-<n>`
  (`RepositoryUtils.UnnamedCanReplaceNamed`). In the older variant, two
  unnamed local repositories collide under `MavenLocal`
  (`LegacyRepositoryUtils.TwoLocalRepositoriesCollide`), and the `maven-<n>`
  counter also counts replaced entries
  (`LegacyRepositoryUtils.NumberingCountsReplacedEntries`).
- `FILE:/…` is Maven-local but not a file URL, because the two tests differ
  in letter case (`LegacyRepositoryUtils.UpperCaseFileScheme`).
- The loader imports `AuthenticationBuilder` when some repository has
  credentials, even if that repository is later dropped as a duplicate URL
  (`Tasks.ImportWithoutCredentialsBlock`).
- Rewriting a descriptor that ends in a blank line is not stable: a second
  run drops one line break (`Tasks.RepeatedRewriteDropsTrailingBlank`).
- `main: .Main` gives the empty package (`LegacyPlugin.LeadingDotGivesEmptyPackage`).
- A resolver jar's `meta-inf/manifest.mf` in lower case passes the
  exact-case filter and is written as an ordinary entry
  (`StandaloneJar.LowerCaseManifestFromResolver`).
- `LauncherBootstrap` rejects an instance `main` with its own message
  (`Launcher.InvokeMainClass`). `BootstrapMain` fails on one when it invokes
  it (`BootstrapMain.RunMain`).

## Model

| member | source | states |
|---|---|---|
| ManifestCodec.EnvPrefix | gradle-plugin/src/main/kotlin/net/cubizor/gradle/InjectionTasks.kt:297 | the prefix has the name's length; each `-` or `.` becomes `_` and every other character is upper-cased |
| ManifestCodec.NonCentral | gradle-plugin/src/main/kotlin/net/cubizor/gradle/InjectionTasks.kt:294-295 | a repository is written exactly when it is in the map and not flagged as Maven Central |
| ManifestCodec.EncodeLines | gradle-plugin/src/main/kotlin/net/cubizor/gradle/InjectionTasks.kt:279-305 | the file has the four header lines, one line per dependency, a blank line, one line per written repository and a closing Maven Central line |
| ManifestCodec.EncodedHeader | gradle-plugin/src/main/kotlin/net/cubizor/gradle/InjectionTasks.kt:281-284 | the file opens with the three comment lines and a blank line |
| ManifestCodec.EncodedDependencies | gradle-plugin/src/main/kotlin/net/cubizor/gradle/InjectionTasks.kt:287-291 | dependency `i` is written on line `4 + i`, in list order, and a blank line follows the dependencies |
| ManifestCodec.EncodedRepositories | gradle-plugin/src/main/kotlin/net/cubizor/gradle/InjectionTasks.kt:294-300 | the repositories that are not Maven Central follow the blank line, in map order |
| ManifestCodec.ReadManifest | gradle-plugin/src/main/kotlin/net/cubizor/gradle/Tasks.kt:362-369 | a missing resource gives no dependencies and no repositories |
| ManifestCodec.SplitThree | gradle-plugin/src/main/kotlin/net/cubizor/gradle/Tasks.kt:381 | Java's split of `g:a:v` gives back the three fields when they hold no colon and `v` is not empty |
| ManifestCodec.DependencyNeedsThreeFields | gradle-plugin/src/main/kotlin/net/cubizor/gradle/Tasks.kt:381-384 | `DEP:g:a` and `DEP:g:a:` are both ignored, because the split drops the trailing empty field |
| ManifestCodec.ParseDependencyLine | gradle-plugin/src/main/kotlin/net/cubizor/gradle/Tasks.kt:379-384 | the DEP line written for an encodable dependency reads back as that dependency's coordinate |
| ManifestCodec.RepositoryColons | gradle-plugin/src/main/kotlin/net/cubizor/gradle/Tasks.kt:390-396 | in a written REPO record the decoder's first colon ends the name, its last colon starts the prefix, and the colon before that ends the URL, whatever colons the URL holds |
| ManifestCodec.ParseRepositoryContent | gradle-plugin/src/main/kotlin/net/cubizor/gradle/Tasks.kt:385-406 | the text after `REPO:` splits back into name, URL, flag text and prefix when only the URL may hold colons |
| ManifestCodec.ParseBooleanText | gradle-plugin/src/main/kotlin/net/cubizor/gradle/Tasks.kt:405 | `Boolean.parseBoolean` reads back the flag the encoder printed, and the printed flag holds no colon |
| ManifestCodec.ParseRepositoryFields | gradle-plugin/src/main/kotlin/net/cubizor/gradle/Tasks.kt:374-406 | a whole REPO line reads back as its four fields after trimming, for a colon-free name and prefix |
| ManifestCodec.ParseRepositoryLine | gradle-plugin/src/main/kotlin/net/cubizor/gradle/Tasks.kt:385-406 | the REPO line written for an encodable repository reads back as its name, URL, authentication flag and environment prefix |
| ManifestCodec.ShortRepositoryLine | gradle-plugin/src/main/kotlin/net/cubizor/gradle/Tasks.kt:398-400 | a REPO line that stops after the URL still reads as a repository, without authentication and with an empty prefix |
| ManifestCodec.IgnoredLines | gradle-plugin/src/main/kotlin/net/cubizor/gradle/Tasks.kt:374-377 | blank lines, `#` comments and lines with any other prefix contribute nothing |
| ManifestCodec.ParseHeaderLine | gradle-plugin/src/main/kotlin/net/cubizor/gradle/Tasks.kt:374-377 | each header line the encoder writes is ignored by the decoder |
| ManifestCodec.DecodeHeader | gradle-plugin/src/main/kotlin/net/cubizor/gradle/Tasks.kt:374-377 | the header block and a blank line decode to no records |
| ManifestCodec.CentralParses | gradle-plugin/src/main/kotlin/net/cubizor/gradle/Tasks.kt:385-406 | the closing line reads as Maven Central with no authentication and an empty prefix |
| ManifestCodec.CentralDecodes | gradle-plugin/src/main/kotlin/net/cubizor/gradle/Tasks.kt:372-409 | a manifest of just the closing line holds the Maven Central record alone |
| ManifestCodec.CollectAppend | gradle-plugin/src/main/kotlin/net/cubizor/gradle/Tasks.kt:372-409 | the records of concatenated line runs are the records of each run, concatenated in line order |
| ManifestCodec.DecodeLinesAppend | gradle-plugin/src/main/kotlin/net/cubizor/gradle/Tasks.kt:372-409 | decoding concatenated lines gives the concatenation of the two decodings |
| ManifestCodec.EncodedLinesSingle | gradle-plugin/src/main/kotlin/net/cubizor/gradle/InjectionTasks.kt:279-305 | for encodable records no written line holds a line terminator, so reading the file sees the same lines |
| ManifestCodec.DecodeEncodedLines | gradle-plugin/src/main/kotlin/net/cubizor/gradle/Tasks.kt:372-409 | the encoder's lines decode to every coordinate in order, every written repository in map order, and Maven Central last |
| ManifestCodec.DecodeEncode | gradle-plugin/src/main/kotlin/net/cubizor/gradle/InjectionTasks.kt:279-305 | round trip: reading the written file gives back every coordinate in order, every repository that is not Maven Central with its authentication flag and environment prefix, and the Maven Central record last |
| ManifestCodec.DecodedFieldsColonFree | gradle-plugin/src/main/kotlin/net/cubizor/gradle/Tasks.kt:379-406 | no decoded dependency field, repository name or environment prefix holds a colon, for any input line |
| RuntimeResolution.Credentials | gradle-plugin/src/main/kotlin/net/cubizor/gradle/Tasks.kt:458-471 | authentication is attached exactly when the record asks for it, its prefix is not empty and both `<prefix>_USERNAME` and `<prefix>_PASSWORD` are set; it carries their values |
| RuntimeResolution.BuildRepositories | gradle-plugin/src/main/kotlin/net/cubizor/gradle/Tasks.kt:449-477 | one repository per record, in order, with the record's name and URL and the credentials above |
| RuntimeResolution.UsableFiles | gradle-plugin/src/main/kotlin/net/cubizor/gradle/Tasks.kt:504-510 | a path is kept exactly when some artifact has it and the file exists; for one artifact the result is its file or nothing |
| RuntimeResolution.ResolveDependencies | gradle-plugin/src/main/kotlin/net/cubizor/gradle/Tasks.kt:479-518 | success exactly when every coordinate resolves; on success the result is the usable files of each coordinate, concatenated in coordinate order; on failure it carries the message of the first coordinate that failed |
| RuntimeResolution.Initialize | gradle-plugin/src/main/kotlin/net/cubizor/gradle/Tasks.kt:312-360 | an initialized state is left alone; success leaves the state initialized; a failure leaves the state unchanged and reports the wrapped error; the context loader changes only to the installed runtime loader |
| RuntimeResolution.InitializeIdempotent | gradle-plugin/src/main/kotlin/net/cubizor/gradle/Tasks.kt:313-316 | a second call after a successful one changes nothing and succeeds |
| RuntimeResolution.FailedInitializeRetries | gradle-plugin/src/main/kotlin/net/cubizor/gradle/Tasks.kt:356-359 | after a failure the state is still uninitialized, so the next call starts again |
| RuntimeResolution.InitializeInstallsResolvedFiles | gradle-plugin/src/main/kotlin/net/cubizor/gradle/Tasks.kt:338-354 | after a successful call with dependencies, the runtime loader holds exactly the resolver's usable files for the manifest's coordinates, in coordinate order |
| RuntimeResolution.EnvPrefixEmpty | gradle-plugin/src/main/kotlin/net/cubizor/gradle/InjectionTasks.kt:297 | the written prefix is empty exactly when the repository name is, so an unnamed repository never gets credentials at run time |
| RuntimeResolution.RecordedCredentials | gradle-plugin/src/main/kotlin/net/cubizor/gradle/Tasks.kt:458-471 | for a repository the build wrote, the runtime attaches credentials exactly when both credential properties were configured, the name is not empty and both environment variables are set |
| RuntimeResolution.CentralNeverAuthenticated | gradle-plugin/src/main/kotlin/net/cubizor/gradle/InjectionTasks.kt:303 | whatever the environment, the Maven Central repository is built last and without authentication |
| RuntimeResolution.LastBuiltWithoutAuth | gradle-plugin/src/main/kotlin/net/cubizor/gradle/Tasks.kt:458-471 | a record that does not ask for authentication is built without it |
| RepositoryUtils.IsMavenCentral | gradle-plugin/src/main/kotlin/net/cubizor/gradle/RepositoryUtils.kt:8-13 | a URL is Maven Central exactly when its lower-cased form names one of the three Central hosts; a trailing `/` is dropped first and never changes the verdict |
| RepositoryUtils.MavenCentralIgnoresCase | gradle-plugin/src/main/kotlin/net/cubizor/gradle/RepositoryUtils.kt:8-13 | URLs that differ only in ASCII letter case get the same verdict |
| RepositoryUtils.DefaultCentralUrl | gradle-plugin/src/main/kotlin/net/cubizor/gradle/RepositoryUtils.kt:8-13 | the fallback `https://repo1.maven.org/maven2/` is recognised as Maven Central |
| RepositoryUtils.HostBetween | gradle-plugin/src/main/kotlin/net/cubizor/gradle/RepositoryUtils.kt:10-12 | `a + "repo1.maven.org" + b` is Maven Central for any texts `a` and `b` |
| RepositoryUtils.StoredInfo | gradle-plugin/src/main/kotlin/net/cubizor/gradle/RepositoryUtils.kt:40-46 | the stored record has the given name and URL, is not Central, and has both credential property names or neither |
| RepositoryUtils.NameFor | gradle-plugin/src/main/kotlin/net/cubizor/gradle/RepositoryUtils.kt:21 | a declared name is kept; an empty one becomes `maven-<current map size>` |
| RepositoryUtils.PutKeepsRegistry | gradle-plugin/src/main/kotlin/net/cubizor/gradle/RepositoryUtils.kt:40-46 | storing a well-formed entry under a new URL keeps the registry shape and every entry with another key |
| RepositoryUtils.Step | gradle-plugin/src/main/kotlin/net/cubizor/gradle/RepositoryUtils.kt:18-47 | one iteration keeps the registry shape; a skipped repository leaves the map unchanged; a kept one is stored under its name; every non-Central Maven URL is stored afterwards; other keys are untouched |
| RepositoryUtils.CollectAllRepositories | gradle-plugin/src/main/kotlin/net/cubizor/gradle/RepositoryUtils.kt:15-51 | the result has unique keys equal to the stored names, no URL twice, nothing flagged Central, and both credential properties or neither |
| RepositoryUtils.CollectProvenance | gradle-plugin/src/main/kotlin/net/cubizor/gradle/RepositoryUtils.kt:15-51 | every stored entry comes from a declared non-Central Maven repository with that URL minus one trailing `/`, under its own name unless that was empty |
| RepositoryUtils.StepOrigin | gradle-plugin/src/main/kotlin/net/cubizor/gradle/RepositoryUtils.kt:18-47 | after one step an entry is either the new one or was there before |
| RepositoryUtils.StepFromEmpty | gradle-plugin/src/main/kotlin/net/cubizor/gradle/RepositoryUtils.kt:18-47 | the first non-Central Maven repository is always stored |
| RepositoryUtils.StepStores | gradle-plugin/src/main/kotlin/net/cubizor/gradle/RepositoryUtils.kt:40-46 | a kept repository is put under its name, with the map's insertion-order semantics |
| RepositoryUtils.CollectPair | gradle-plugin/src/main/kotlin/net/cubizor/gradle/RepositoryUtils.kt:18-48 | two declarations are collected as two steps from the empty map |
| RepositoryUtils.DuplicateUrlKeepsFirst | gradle-plugin/src/main/kotlin/net/cubizor/gradle/RepositoryUtils.kt:27-29 | of two repositories with the same stored URL, the first is kept under its own name, whatever the second is called |
| RepositoryUtils.DuplicateUrlIsCaseSensitive | gradle-plugin/src/main/kotlin/net/cubizor/gradle/RepositoryUtils.kt:27-29 | the same address spelt in different letter case is stored twice |
| RepositoryUtils.SameNameReplaces | gradle-plugin/src/main/kotlin/net/cubizor/gradle/RepositoryUtils.kt:40 | a later repository with an existing name replaces the earlier entry in its place |
| RepositoryUtils.UnnamedCanReplaceNamed | gradle-plugin/src/main/kotlin/net/cubizor/gradle/RepositoryUtils.kt:21 | an unnamed repository numbered from the map size can take over the entry of one explicitly named `maven-1` |
| RepositoryUtils.CollectUrlsDeclared | gradle-plugin/src/main/kotlin/net/cubizor/gradle/RepositoryUtils.kt:15-51 | every stored URL is the stored URL of a declared non-Central Maven repository |
| RepositoryUtils.CollectKeepsDeclaredUrl | gradle-plugin/src/main/kotlin/net/cubizor/gradle/RepositoryUtils.kt:15-51 | with distinct non-empty names, every declared non-Central URL ends up stored |
| RepositoryUtils.CollectUrlsExactly | gradle-plugin/src/main/kotlin/net/cubizor/gradle/RepositoryUtils.kt:15-51 | with distinct non-empty names, the stored URLs are exactly the declared non-Central ones (both directions) |
| RepositoryUtils.Scheme | gradle-plugin/src/main/kotlin/net/cubizor/gradle/RepositoryUtils.kt:55 | the scheme is the colon-free text before the first colon, and there is none exactly when the URL has no colon |
| RepositoryUtils.PropertyOrEnv | gradle-plugin/src/main/kotlin/net/cubizor/gradle/RepositoryUtils.kt:56-59 | a set project property is used; otherwise the environment variable, if set |
| RepositoryUtils.DetectCredentials | gradle-plugin/src/main/kotlin/net/cubizor/gradle/RepositoryUtils.kt:53-69 | credentials are found only for `http`/`https` URLs and exactly when both halves are found |
| RepositoryUtils.PropertyWinsOverEnvironment | gradle-plugin/src/main/kotlin/net/cubizor/gradle/RepositoryUtils.kt:56-59 | each half comes from the `<name>.username`/`<name>.password` property when it is set, and otherwise from `<NAME>_USERNAME`/`<NAME>_PASSWORD` |
| RepositoryUtils.ApplyCredentials | gradle-plugin/src/main/kotlin/net/cubizor/gradle/RepositoryUtils.kt:53-69 | the list keeps its length and order; exactly the Maven repositories with detected credentials get both halves configured |
| RepositoryUtils.ApplyThenCollect | gradle-plugin/src/main/kotlin/net/cubizor/gradle/RepositoryUtils.kt:53-69 | after detection a repository keeps its name and URL and has both halves configured, so collection records credential properties for it |
| LegacyRepositoryUtils.IsFileProtocol | src/main/kotlin/net/cubizor/runtimedependency/RepositoryUtils.kt:51 | a URL is a file URL exactly when it starts with `file:`; the `file://` test is subsumed |
| LegacyRepositoryUtils.FileProtocolIsLocal | src/main/kotlin/net/cubizor/runtimedependency/RepositoryUtils.kt:15-20 | every file URL is also Maven-local |
| LegacyRepositoryUtils.UpperCaseFileScheme | src/main/kotlin/net/cubizor/runtimedependency/RepositoryUtils.kt:15-20 | `FILE:/repo` is Maven-local but not a file URL, because only `isMavenLocal` lower-cases |
| LegacyRepositoryUtils.LegacyNameFor | src/main/kotlin/net/cubizor/runtimedependency/RepositoryUtils.kt:44-46 | a declared name is kept; an empty one becomes `MavenLocal` for a local URL and `maven-<counter>` otherwise |
| LegacyRepositoryUtils.LegacyStoredInfo | src/main/kotlin/net/cubizor/runtimedependency/RepositoryUtils.kt:63-70 | the stored record has the given name and URL, is not Central, and has both credential property names or neither |
| LegacyRepositoryUtils.LegacyPutKeepsRegistry | src/main/kotlin/net/cubizor/runtimedependency/RepositoryUtils.kt:63-70 | storing a well-formed entry under a new URL keeps the registry shape and every entry with another key |
| LegacyRepositoryUtils.LegacyStep | src/main/kotlin/net/cubizor/runtimedependency/RepositoryUtils.kt:30-71 | one iteration keeps the registry shape; the counter advances exactly when the repository is kept; a skipped one changes nothing |
| LegacyRepositoryUtils.LegacyCollect | src/main/kotlin/net/cubizor/runtimedependency/RepositoryUtils.kt:22-75 | the result keeps the registry shape, and the map never has more entries than the counter, which never exceeds the declarations |
| LegacyRepositoryUtils.LegacyCollectProvenance | src/main/kotlin/net/cubizor/runtimedependency/RepositoryUtils.kt:22-75 | every stored entry comes from a declared repository, with its local flag computed from its URL |
| LegacyRepositoryUtils.LegacyStepOrigin | src/main/kotlin/net/cubizor/runtimedependency/RepositoryUtils.kt:30-71 | after one step an entry is either the new one or was there before |
| LegacyRepositoryUtils.FileRepositoriesHaveNoCredentials | src/main/kotlin/net/cubizor/runtimedependency/RepositoryUtils.kt:51-61 | a stored `file:` repository never has credential properties, and every stored local flag agrees with `isMavenLocal` |
| LegacyRepositoryUtils.LegacyCollectPair | src/main/kotlin/net/cubizor/runtimedependency/RepositoryUtils.kt:30-72 | two declarations are collected as two steps from an empty map and a zero counter |
| LegacyRepositoryUtils.TwoLocalRepositoriesCollide | src/main/kotlin/net/cubizor/runtimedependency/RepositoryUtils.kt:44-46 | two unnamed local repositories at different paths are both called `MavenLocal`, so the second replaces the first |
| LegacyRepositoryUtils.LegacySameNameTwice | src/main/kotlin/net/cubizor/runtimedependency/RepositoryUtils.kt:44-70 | two repositories that get the same name leave one entry, the second, and the counter at two |
| LegacyRepositoryUtils.LegacyStepStores | src/main/kotlin/net/cubizor/runtimedependency/RepositoryUtils.kt:44-70 | a kept repository is stored under its name with its credential flag, and the counter advances |
| LegacyRepositoryUtils.LegacyReplacementCounts | src/main/kotlin/net/cubizor/runtimedependency/RepositoryUtils.kt:47 | two repositories named `a` at different URLs leave one entry but advance the counter twice |
| LegacyRepositoryUtils.NumberingCountsReplacedEntries | src/main/kotlin/net/cubizor/runtimedependency/RepositoryUtils.kt:45-47 | the counter numbers the next unnamed repository `maven-2` after a replacement, where the newer plugin's map size gives `maven-1` |
| Tasks.GroupDirectory | gradle-plugin/src/main/kotlin/net/cubizor/gradle/Tasks.kt:32-37 | with no dash in the name the directory is `unknown`; otherwise dropping the last dash-separated field and rejoining gives exactly the text before the last dash |
| Tasks.Destination | gradle-plugin/src/main/kotlin/net/cubizor/gradle/Tasks.kt:31-41 | unorganized files keep their name; organized ones sit under a directory, under the text before the last dash of the extensionless name when there is a dash |
| Tasks.StemOfName | gradle-plugin/src/main/kotlin/net/cubizor/gradle/Tasks.kt:32 | the extensionless name of `stem.ext` is `stem` when the extension holds no dot |
| Tasks.GroupOfStem | gradle-plugin/src/main/kotlin/net/cubizor/gradle/Tasks.kt:32-34 | the directory of `front-last` is `front` when `last` holds no dash |
| Tasks.DashedJarDestination | gradle-plugin/src/main/kotlin/net/cubizor/gradle/Tasks.kt:31-38 | `front-last.ext` is filed under `front`, so a jar named `<artifact>-<version>` is filed under the artifact, and one with a classifier under `<artifact>-<version>` |
| Tasks.Download | gradle-plugin/src/main/kotlin/net/cubizor/gradle/Tasks.kt:23-51 | the output holds a file exactly at the destinations of the listed files |
| Tasks.LastCopyWins | gradle-plugin/src/main/kotlin/net/cubizor/gradle/Tasks.kt:44 | a destination holds the last file copied to it, because copies overwrite |
| Tasks.PlanLoader | gradle-plugin/src/main/kotlin/net/cubizor/gradle/Tasks.kt:92-164 | the import appears exactly when some non-Central repository has either credential property; one dependency line per dependency in order; registered repositories are non-Central, come from the map, and have pairwise distinct URLs; a credentials block implies the import |
| Tasks.AuthImport | gradle-plugin/src/main/kotlin/net/cubizor/gradle/Tasks.kt:98-102 | the import is decided on every non-Central repository, before repeated URLs are dropped |
| Tasks.PlanRepositories | gradle-plugin/src/main/kotlin/net/cubizor/gradle/Tasks.kt:104-108 | the registered repositories are the first non-Central repository of each URL, in map order, each with a credentials block exactly when both properties are set |
| Tasks.PlanRepositoriesFacts | gradle-plugin/src/main/kotlin/net/cubizor/gradle/Tasks.kt:98-108 | registered URLs are pairwise distinct, each registered repository is a stored non-Central one, and a credentials block implies the import |
| Tasks.ImportDecided | gradle-plugin/src/main/kotlin/net/cubizor/gradle/Tasks.kt:98-99 | a filtered repository with a credential property exists exactly when some non-Central map entry has one |
| Tasks.UniqueKept | gradle-plugin/src/main/kotlin/net/cubizor/gradle/Tasks.kt:98-104 | every repository kept after `distinctBy` is a stored non-Central one |
| Tasks.PlanCoversEveryUrl | gradle-plugin/src/main/kotlin/net/cubizor/gradle/Tasks.kt:104 | every non-Central URL in the map is registered by some repository of the loader |
| Tasks.ImportWithoutCredentialsBlock | gradle-plugin/src/main/kotlin/net/cubizor/gradle/Tasks.kt:99-108 | a credentialed repository repeating an earlier URL triggers the import although the only registered repository has no credentials block |
| Tasks.IndexOfFirst | gradle-plugin/src/main/kotlin/net/cubizor/gradle/Tasks.kt:185-187 | the result is the first matching index, and -1 exactly when nothing matches |
| Tasks.FirstMatchUnique | gradle-plugin/src/main/kotlin/net/cubizor/gradle/Tasks.kt:185-187 | there is only one first match |
| Tasks.ReplaceFirstOrPrepend | gradle-plugin/src/main/kotlin/net/cubizor/gradle/Tasks.kt:189-193 | the first matching line is replaced, or the line goes in front when none matches |
| Tasks.ReplaceKeepsOthers | gradle-plugin/src/main/kotlin/net/cubizor/gradle/Tasks.kt:189-190 | with a match the length is kept and every other line is unchanged |
| Tasks.PrependKeepsAll | gradle-plugin/src/main/kotlin/net/cubizor/gradle/Tasks.kt:191-192 | without a match exactly one line is added, in front, and the others follow unchanged |
| Tasks.ReplaceIdempotent | gradle-plugin/src/main/kotlin/net/cubizor/gradle/Tasks.kt:185-193 | editing again with a line that itself matches changes nothing |
| Tasks.WrittenLineIsLoaderLine | gradle-plugin/src/main/kotlin/net/cubizor/gradle/Tasks.kt:180-187 | the line written, under either key, is recognised as a loader line on the next run |
| Tasks.UpdatePluginYml | gradle-plugin/src/main/kotlin/net/cubizor/gradle/Tasks.kt:166-197 | nothing is written exactly when neither file exists; `paper-plugin.yml` is chosen exactly when it exists; the chosen file's text is rewritten with the key that belongs to it |
| Tasks.LoaderLineSingle | gradle-plugin/src/main/kotlin/net/cubizor/gradle/Tasks.kt:182 | the loader line is not empty and holds no line break when the names hold none |
| Tasks.RewrittenLinesReadBack | gradle-plugin/src/main/kotlin/net/cubizor/gradle/Tasks.kt:184-195 | the lines written by a first rewrite are read back unchanged when no line holds a terminator and the last one is not empty |
| Tasks.EditedLinesReadBack | gradle-plugin/src/main/kotlin/net/cubizor/gradle/Tasks.kt:184-195 | the same for any choice of the line to replace |
| Tasks.RewriteTextIdempotent | gradle-plugin/src/main/kotlin/net/cubizor/gradle/Tasks.kt:166-197 | a second run leaves the text as the first run wrote it, when the names hold no line break and the original does not end with a blank line |
| Tasks.TwoBlankLinesRead | gradle-plugin/src/main/kotlin/net/cubizor/gradle/Tasks.kt:184 | the text of two line breaks reads as two empty lines |
| Tasks.RewriteTwoBlankLines | gradle-plugin/src/main/kotlin/net/cubizor/gradle/Tasks.kt:184-195 | a descriptor of two blank lines becomes the loader line followed by two line breaks |
| Tasks.RewriteLoaderThenBlank | gradle-plugin/src/main/kotlin/net/cubizor/gradle/Tasks.kt:184-195 | a loader line followed by two line breaks comes back with one line break fewer |
| Tasks.RepeatedRewriteDropsTrailingBlank | gradle-plugin/src/main/kotlin/net/cubizor/gradle/Tasks.kt:184-195 | a descriptor ending in a blank line is not stable: the second run drops a line break |
| LegacyTasks.LegacyNonCentral | src/main/kotlin/net/cubizor/runtimedependency/Tasks.kt:98 | a repository is kept exactly when it is in the map and not flagged as Maven Central |
| LegacyTasks.LegacyPlanLoader | src/main/kotlin/net/cubizor/runtimedependency/Tasks.kt:92-167 | as in the newer task, and in addition a `file:` repository never gets a credentials block |
| LegacyTasks.LegacyAuthImport | src/main/kotlin/net/cubizor/runtimedependency/Tasks.kt:98-102 | the import is decided on every non-Central repository, before repeated URLs are dropped and whatever their scheme |
| LegacyTasks.LegacyPlanRepositories | src/main/kotlin/net/cubizor/runtimedependency/Tasks.kt:104-111 | the registered repositories are the first non-Central repository of each URL, in map order, with a credentials block only for non-`file:` URLs with both properties |
| LegacyTasks.LegacyPlanRepositoriesFacts | src/main/kotlin/net/cubizor/runtimedependency/Tasks.kt:98-111 | registered URLs are pairwise distinct, each comes from the map, a `file:` URL is never authenticated, and a credentials block implies the import |
| LegacyTasks.LegacyImportDecided | src/main/kotlin/net/cubizor/runtimedependency/Tasks.kt:98-99 | a filtered repository with a credential property exists exactly when some non-Central map entry has one |
| LegacyTasks.LegacyUniqueKept | src/main/kotlin/net/cubizor/runtimedependency/Tasks.kt:98-104 | every repository kept after `distinctBy` is a stored non-Central one |
| LegacyTasks.ExclusionRedundantAfterCollect | src/main/kotlin/net/cubizor/runtimedependency/Tasks.kt:110-111 | for the older collector's output, the `file:` test changes nothing: a credentials block appears exactly when both properties are set |
| LegacyTasks.FileRepositoryNotAuthenticated | src/main/kotlin/net/cubizor/runtimedependency/Tasks.kt:99-111 | a `file:` repository given both properties by hand triggers the import but gets no credentials block |
| Plugin.SelectMode | gradle-plugin/src/main/kotlin/net/cubizor/gradle/RuntimeDependencyPlugin.kt:49-71 | enabling both modes is an error with the plugin's message; otherwise Paper exactly when only Paper is on, standalone exactly when only standalone is on, and download-only exactly when neither is |
| Plugin.CheckStandaloneMainClass | gradle-plugin/src/main/kotlin/net/cubizor/gradle/RuntimeDependencyPlugin.kt:105-116 | standalone mode proceeds exactly when the main class is not empty, with that class; otherwise it fails with the usage message |
| Plugin.JarNames | gradle-plugin/src/main/kotlin/net/cubizor/gradle/RuntimeDependencyPlugin.kt:121-123 | one name per resolved artifact, in order, each ending in `.jar` and starting with the artifact name and a dash |
| Plugin.ScanOrder | gradle-plugin/src/main/kotlin/net/cubizor/gradle/RuntimeDependencyPlugin.kt:204-207 | the project's repositories are scanned, followed by the parent's when there is a parent |
| Plugin.RecordedName | gradle-plugin/src/main/kotlin/net/cubizor/gradle/RuntimeDependencyPlugin.kt:213 | the recorded name is never empty, and a declared name is kept |
| Plugin.Candidate | gradle-plugin/src/main/kotlin/net/cubizor/gradle/RuntimeDependencyPlugin.kt:211-217 | a scanned repository is a candidate exactly when it is a Maven repository outside Maven Central, recorded under its name and its URL minus one trailing `/` |
| Plugin.Candidates | gradle-plugin/src/main/kotlin/net/cubizor/gradle/RuntimeDependencyPlugin.kt:209-234 | every candidate of the scan appears, in scan order, each with a non-empty name and a non-Central URL |
| Plugin.PrivateRepositories | gradle-plugin/src/main/kotlin/net/cubizor/gradle/RuntimeDependencyPlugin.kt:219-231 | the private list has pairwise distinct URLs and holds only candidates |
| Plugin.FindRepositoryForArtifact | gradle-plugin/src/main/kotlin/net/cubizor/gradle/RuntimeDependencyPlugin.kt:202-241 | the result is the first candidate, with credential properties named after it, or the Maven Central record when there is none |
| Plugin.FirstPrivateIsFirstCandidate | gradle-plugin/src/main/kotlin/net/cubizor/gradle/RuntimeDependencyPlugin.kt:219-236 | dropping repeated URLs leaves the list empty exactly when it was empty and never removes the first candidate |
| Plugin.ProjectBeforeParent | gradle-plugin/src/main/kotlin/net/cubizor/gradle/RuntimeDependencyPlugin.kt:204-236 | a private repository of the project itself wins over anything the parent declares |
| Plugin.OnlyCentralGivesDefault | gradle-plugin/src/main/kotlin/net/cubizor/gradle/RuntimeDependencyPlugin.kt:236-240 | with no private repository anywhere the Maven Central record is used |
| Plugin.CandidateOrigin | gradle-plugin/src/main/kotlin/net/cubizor/gradle/RuntimeDependencyPlugin.kt:209-234 | every candidate comes from a scanned repository |
| Plugin.AnalyzeDependencies | gradle-plugin/src/main/kotlin/net/cubizor/gradle/RuntimeDependencyPlugin.kt:182-200 | one record per resolved artifact, in order, carrying its group, name and version and the same repository |
| LegacyPlugin.PackageOf | src/main/kotlin/net/cubizor/runtimedependency/RuntimeDependencyPlugin.kt:153-154 | a package is found exactly for a non-blank name with a dot; it is the text before the last dot, and no dot follows it |
| LegacyPlugin.PackageFromLines | src/main/kotlin/net/cubizor/runtimedependency/RuntimeDependencyPlugin.kt:145-157 | only the first `main:` line counts, and without one the file yields nothing |
| LegacyPlugin.PackageFromFile | src/main/kotlin/net/cubizor/runtimedependency/RuntimeDependencyPlugin.kt:142-160 | a missing or unreadable file yields nothing; a readable one yields what its lines yield |
| LegacyPlugin.DetectPluginPackage | src/main/kotlin/net/cubizor/runtimedependency/RuntimeDependencyPlugin.kt:134-171 | `paper-plugin.yml` wins, then `plugin.yml`, then the project group unless it is blank or `unspecified` |
| LegacyPlugin.MainLineAfterSpaces | src/main/kotlin/net/cubizor/runtimedependency/RuntimeDependencyPlugin.kt:146 | a line with `main:` after leading white space is a main line |
| LegacyPlugin.FirstKeyAfterSpaces | src/main/kotlin/net/cubizor/runtimedependency/RuntimeDependencyPlugin.kt:149 | the value starts right after the first `main:` that follows the leading white space |
| LegacyPlugin.TrimQuotes | src/main/kotlin/net/cubizor/runtimedependency/RuntimeDependencyPlugin.kt:151 | any run of quote characters on either side of the value is removed |
| LegacyPlugin.TrimPaddedValue | src/main/kotlin/net/cubizor/runtimedependency/RuntimeDependencyPlugin.kt:149-151 | trimming white space and then quotes recovers the declared value |
| LegacyPlugin.DeclaredMainClass | src/main/kotlin/net/cubizor/runtimedependency/RuntimeDependencyPlugin.kt:145-151 | `main: <class>` with any white space and optional quotes is a main line whose value is the class name |
| LegacyPlugin.PackageOfDeclaredClass | src/main/kotlin/net/cubizor/runtimedependency/RuntimeDependencyPlugin.kt:145-157 | the first declared class gives the text before its last dot; an unqualified class gives nothing from that file, whatever later lines say |
| LegacyPlugin.SingleDeclaration | src/main/kotlin/net/cubizor/runtimedependency/RuntimeDependencyPlugin.kt:145-154 | a one-line descriptor `main: <class>` yields the class's package |
| LegacyPlugin.OnlyLinePackage | src/main/kotlin/net/cubizor/runtimedependency/RuntimeDependencyPlugin.kt:145-154 | a file whose one line declares the main class yields that class's package |
| LegacyPlugin.LeadingDotGivesEmptyPackage | src/main/kotlin/net/cubizor/runtimedependency/RuntimeDependencyPlugin.kt:153-154 | `main: .Main` is detected with the empty package |
| LegacyPlugin.UnqualifiedPaperClassFallsThrough | src/main/kotlin/net/cubizor/runtimedependency/RuntimeDependencyPlugin.kt:141-157 | an unqualified class in `paper-plugin.yml` does not stop the search: `plugin.yml` decides |
| LegacyPlugin.LoaderPackage | src/main/kotlin/net/cubizor/runtimedependency/RuntimeDependencyPlugin.kt:70-78 | a configured package other than `net.cubizor.loader` is kept; the default is replaced by a detected package when there is one |
| LegacyPlugin.GroupUsedWithoutDescriptor | src/main/kotlin/net/cubizor/runtimedependency/RuntimeDependencyPlugin.kt:163-168 | with no descriptor, a real project group becomes the loader package |
| LegacyPlugin.LegacyPrivateInfo | src/main/kotlin/net/cubizor/runtimedependency/RuntimeDependencyPlugin.kt:215-226 | the record keeps name and URL, is flagged local exactly for a Maven-local URL, and has credential properties exactly when it is not local |
| LegacyPlugin.LegacyFindRepositoryForArtifact | src/main/kotlin/net/cubizor/runtimedependency/RuntimeDependencyPlugin.kt:194-236 | the result is the first candidate of the same scan, or the Maven Central record, which is never flagged local |
| LegacyPlugin.SameRepositoryAsCurrent | src/main/kotlin/net/cubizor/runtimedependency/RuntimeDependencyPlugin.kt:194-236 | both generations pick the same name and URL; they differ only in the local flag and in the credential properties of a local repository |
| LegacyPlugin.LegacyAnalyzeDependencies | src/main/kotlin/net/cubizor/runtimedependency/RuntimeDependencyPlugin.kt:173-192 | one record per resolved artifact, in order, never marked as coming from Maven local |
| StandaloneJar.AttributeIndex | gradle-plugin/src/main/kotlin/net/cubizor/gradle/InjectionTasks.kt:80-81 | the index is that of the first attribute whose name equals the key ignoring case, and -1 exactly when there is none |
| StandaloneJar.PutValue | gradle-plugin/src/main/kotlin/net/cubizor/gradle/InjectionTasks.kt:80-81 | after `putValue` the attribute reads back as the new value; names stay unique ignoring case; the attribute is updated in place or appended; every attribute with another name is unchanged |
| StandaloneJar.PutValueKeepsOthers | gradle-plugin/src/main/kotlin/net/cubizor/gradle/InjectionTasks.kt:80-81 | a `putValue` of one name never changes the value read for another name |
| StandaloneJar.AttributeNamesDiffer | gradle-plugin/src/main/kotlin/net/cubizor/gradle/InjectionTasks.kt:80-81 | the two attributes written are distinct names even ignoring case, so the second write cannot undo the first |
| StandaloneJar.RewriteManifest | gradle-plugin/src/main/kotlin/net/cubizor/gradle/InjectionTasks.kt:76-81 | the new manifest reads `Main-Class` as the bootstrap class and `Original-Main-Class` as the application's class, and keeps every other original attribute in its place |
| StandaloneJar.AbsentManifestCountsAsEmpty | gradle-plugin/src/main/kotlin/net/cubizor/gradle/InjectionTasks.kt:76 | without a manifest in the input the new one holds just the two attributes, in that order |
| StandaloneJar.PutAll | gradle-plugin/src/main/kotlin/net/cubizor/gradle/InjectionTasks.kt:160 | storing pairs into a map keeps keys unique and leaves exactly the old keys and the stored ones |
| StandaloneJar.BootstrapEntries | gradle-plugin/src/main/kotlin/net/cubizor/gradle/InjectionTasks.kt:153-162 | only `BootstrapMain*.class` entries are taken, and every such entry is taken with its content |
| StandaloneJar.ClassLoaderEntries | gradle-plugin/src/main/kotlin/net/cubizor/gradle/InjectionTasks.kt:182-195 | a listed class is taken exactly when the class loader supplies it, with the supplied content |
| StandaloneJar.ExtractBootstrap | gradle-plugin/src/main/kotlin/net/cubizor/gradle/InjectionTasks.kt:135-172 | a usable plugin jar gives exactly its bootstrap class names, and fails with the jar message when it has none; an unknown, missing or non-file location uses the class loader, which fails with its own message when it supplies nothing; success is never empty |
| StandaloneJar.BootstrapFromJar | gradle-plugin/src/main/kotlin/net/cubizor/gradle/InjectionTasks.kt:153-171 | the names collected are exactly the jar's bootstrap class entries; it fails exactly when there are none |
| StandaloneJar.BootstrapClassNames | gradle-plugin/src/main/kotlin/net/cubizor/gradle/InjectionTasks.kt:153-162 | a name is collected from the jar exactly when it is an entry and a bootstrap class |
| StandaloneJar.BootstrapFromClassLoader | gradle-plugin/src/main/kotlin/net/cubizor/gradle/InjectionTasks.kt:177-204 | it fails exactly when the class loader supplies none of the five listed classes; otherwise it holds exactly the supplied ones, in list order |
| StandaloneJar.ClassLoaderEntriesUnique | gradle-plugin/src/main/kotlin/net/cubizor/gradle/InjectionTasks.kt:182-195 | a list of distinct names gives entries with distinct paths |
| StandaloneJar.KeptEntries | gradle-plugin/src/main/kotlin/net/cubizor/gradle/InjectionTasks.kt:222-232 | exactly the files that are not skipped are kept, with their content |
| StandaloneJar.ResolverCandidates | gradle-plugin/src/main/kotlin/net/cubizor/gradle/InjectionTasks.kt:212-240 | no candidate is a module descriptor, versioned or Maven metadata, the exact-case manifest or a signature file |
| StandaloneJar.ExtractResolver | gradle-plugin/src/main/kotlin/net/cubizor/gradle/InjectionTasks.kt:209-247 | every path appears once, with the entry of the first jar and first entry that supplies it; nothing skipped or unsupplied appears |
| StandaloneJar.FailedJarKeepsEarlierEntries | gradle-plugin/src/main/kotlin/net/cubizor/gradle/InjectionTasks.kt:217-243 | a jar that fails part-way still contributes the entries read before the failure |
| StandaloneJar.CopiedEntries | gradle-plugin/src/main/kotlin/net/cubizor/gradle/InjectionTasks.kt:85-91 | the original entries are copied except any spelling of `META-INF/MANIFEST.MF` |
| StandaloneJar.Configure | gradle-plugin/src/main/kotlin/net/cubizor/gradle/InjectionTasks.kt:48-130 | an empty main class fails first; otherwise the task fails exactly when bootstrap extraction fails, with its message; on success the manifest is rewritten, the entries are the first of each path among originals, bootstrap and resolver classes, the manifest path is never written as an entry, and the total counts the entries |
| StandaloneJar.OfferedNotManifest | gradle-plugin/src/main/kotlin/net/cubizor/gradle/InjectionTasks.kt:85-118 | no entry offered for writing has the manifest path, so it is written only once |
| StandaloneJar.OriginalsFirst | gradle-plugin/src/main/kotlin/net/cubizor/gradle/InjectionTasks.kt:85-98 | the merged jar begins with the original entries, in their order, each path with its first content |
| StandaloneJar.OriginalContentWins | gradle-plugin/src/main/kotlin/net/cubizor/gradle/InjectionTasks.kt:92-118 | a written entry whose path the application jar had is an original entry; bootstrap and resolver classes never displace one |
| StandaloneJar.ResolverOnlyFillsGaps | gradle-plugin/src/main/kotlin/net/cubizor/gradle/InjectionTasks.kt:110-118 | a resolver entry is written only for a path neither the application jar nor the bootstrap classes supply |
| StandaloneJar.TotalIsDistinctPaths | gradle-plugin/src/main/kotlin/net/cubizor/gradle/InjectionTasks.kt:72-129 | the reported total is the number of distinct paths offered |
| StandaloneJar.LowerCaseManifestFromResolver | gradle-plugin/src/main/kotlin/net/cubizor/gradle/InjectionTasks.kt:224-227 | a resolver jar's `meta-inf/manifest.mf` matches the manifest path ignoring case yet passes the exact-case filter, so it is written as an ordinary entry |
| StandaloneJar.ReplaceInput | gradle-plugin/src/main/kotlin/net/cubizor/gradle/InjectionTasks.kt:123-126 | the input file ends up with the output's content; a distinct output is removed; every other file is untouched |
| StandaloneJar.ReplaceConsumesOutput | gradle-plugin/src/main/kotlin/net/cubizor/gradle/InjectionTasks.kt:123-126 | after replacing, the output file is gone, and the files are the old ones with the output swapped for the input |
| FileTree.FindFrom | gradle-plugin/src/main/java/net/cubizor/gradle/loader/BootstrapMain.java:165-179 | whatever the depth-first search returns addresses a regular file with exactly the wanted name, under an entry at or after the starting one |
| FileTree.FindComplete | gradle-plugin/src/main/java/net/cubizor/gradle/loader/BootstrapMain.java:165-179 | nothing is missed: whenever some regular file below the directory has the name, the search returns a result |
| FileTree.FindFirst | gradle-plugin/src/main/java/net/cubizor/gradle/loader/BootstrapMain.java:169-177 | the search is depth-first in listing order: no matching file comes before the returned one in walk order |
| FileTree.FindJarFile | gradle-plugin/src/main/java/net/cubizor/gradle/loader/BootstrapMain.java:157-163 | a name that addresses an entry through its `/`, `.` and `..` segments is taken whatever the entry is; otherwise the first regular file of that name in walk order; any result addresses an existing entry, and a plain name with a direct child is found at once |
| FileTree.DirectDirectoryShadows | gradle-plugin/src/main/java/net/cubizor/gradle/loader/BootstrapMain.java:158-160 | `File.exists` holds for directories, so a directory named like the jar is returned in place of a deeper regular file with that name |
| FileTree.FindJarFileSearch | gradle-plugin/src/main/java/net/cubizor/gradle/loader/BootstrapMain.java:157-179 | without a direct entry of that name, the result is a regular file with the name and the first such file in walk order |
| FileTree.Extension | gradle-plugin/src/main/kotlin/net/cubizor/gradle/launcher/RuntimeDependencyClassLoader.kt:40 | the extension holds no `.` and the name ends with `.` and the extension; a name without `.` has the empty extension |
| FileTree.Walk | gradle-plugin/src/main/kotlin/net/cubizor/gradle/launcher/RuntimeDependencyClassLoader.kt:39-41 | every collected path addresses a jar file (regular file, extension `jar` in any case) |
| FileTree.WalkComplete | gradle-plugin/src/main/kotlin/net/cubizor/gradle/launcher/RuntimeDependencyClassLoader.kt:39-41 | every jar file at any depth below the directory is collected |
| FileTree.WalkOrdered | gradle-plugin/src/main/kotlin/net/cubizor/gradle/launcher/RuntimeDependencyClassLoader.kt:39-41 | the collected paths are in strict top-down walk order, so each jar appears once |
| FileTree.CollectJarUrls | gradle-plugin/src/main/kotlin/net/cubizor/gradle/launcher/RuntimeDependencyClassLoader.kt:31-53 | a missing library path or a plain file yields no URLs; a directory yields only jar files below it |
| FileTree.UpperExtensionIsJar | gradle-plugin/src/main/kotlin/net/cubizor/gradle/launcher/RuntimeDependencyClassLoader.kt:40 | a file named `<stem>.JAR` counts as a jar: the extension is compared ignoring case |
| FileTree.ExtensionCaseInsensitive | gradle-plugin/src/main/kotlin/net/cubizor/gradle/launcher/RuntimeDependencyClassLoader.kt:39-41 | in a directory holding `x.JAR`, a subdirectory and a file without extension, only `x.JAR` is collected |
| BootstrapMain.ManifestLibraryPath | gradle-plugin/src/main/java/net/cubizor/gradle/loader/BootstrapMain.java:40-50 | a library directory from the manifest is used only when the main-class property is absent, a manifest exists and the value is non-empty |
| BootstrapMain.ResolveConfig | gradle-plugin/src/main/java/net/cubizor/gradle/loader/BootstrapMain.java:29-54 | the main-class property wins and then the manifest is not read; otherwise `Original-Main-Class`; the library directory is the manifest's non-empty `Library-Path`, else a non-empty property, else `libs`; it is never empty |
| BootstrapMain.MainPropertyHidesManifestLibrary | gradle-plugin/src/main/java/net/cubizor/gradle/loader/BootstrapMain.java:33-50 | setting the main class by property also hides the manifest's `Library-Path`: the same manifest gives `libs` with the property and its own directory without it |
| BootstrapMain.TrimAll | gradle-plugin/src/main/java/net/cubizor/gradle/loader/BootstrapMain.java:143 | each line is trimmed as `String.trim` does, one result per line in order |
| BootstrapMain.KeepDependencyLines | gradle-plugin/src/main/java/net/cubizor/gradle/loader/BootstrapMain.java:143-146 | exactly the non-empty lines not starting with `#` are kept, and no other |
| BootstrapMain.ReadDependencies | gradle-plugin/src/main/java/net/cubizor/gradle/loader/BootstrapMain.java:134-155 | the dependency names are exactly the trimmed lines that are neither empty nor comments |
| BootstrapMain.ReadDependenciesAppend | gradle-plugin/src/main/java/net/cubizor/gradle/loader/BootstrapMain.java:142-147 | lines are handled one at a time: reading a concatenation gives the names of each part in file order |
| BootstrapMain.DependenciesFromText | gradle-plugin/src/main/java/net/cubizor/gradle/loader/BootstrapMain.java:136-140 | a missing resource gives no dependencies; a present one is read line by line as `readLine` splits it |
| BootstrapMain.Lookups | gradle-plugin/src/main/java/net/cubizor/gradle/loader/BootstrapMain.java:79-80 | the lookup of every dependency in the library directory, one per dependency in order |
| BootstrapMain.FoundJars | gradle-plugin/src/main/java/net/cubizor/gradle/loader/BootstrapMain.java:79-86 | every jar added was found for some dependency, and every dependency that is found contributes its jar; the order and the skipping of missing jars follow from FoundJarsSingle and FoundJarsAppend |
| BootstrapMain.ClassPath | gradle-plugin/src/main/java/net/cubizor/gradle/loader/BootstrapMain.java:71-89 | the running jar comes first, then exactly the found jars of FoundJars (in dependency order, missing ones skipped); only the running jar when the library directory is missing or not a directory |
| BootstrapMain.AllFoundInOrder | gradle-plugin/src/main/java/net/cubizor/gradle/loader/BootstrapMain.java:79-86 | when every dependency is found, the class path holds exactly their jars in dependency order |
| BootstrapMain.LoadClass | gradle-plugin/src/main/java/net/cubizor/gradle/loader/BootstrapMain.java:195-229 | an already loaded class is returned; `java.`/`javax.`/`sun.`/`jdk.` names and the bootstrap's own classes go to the parent; other names come from the loader's own URLs first; the result is a failure exactly when no source has the class |
| BootstrapMain.ChildFirstShadowsParent | gradle-plugin/src/main/java/net/cubizor/gradle/loader/BootstrapMain.java:218-225 | a class both the application jars and the parent hold is taken from the application jars |
| BootstrapMain.RunMain | gradle-plugin/src/main/java/net/cubizor/gradle/loader/BootstrapMain.java:56-117 | every failure exits with status 1; no or an empty main class exits before loading; the application runs exactly when the class loads, has a static `main(String[])` and returns normally |
| Launcher.JarLocation | gradle-plugin/src/main/kotlin/net/cubizor/gradle/launcher/LauncherBootstrap.kt:102-106 | a jar file yields its parent directory; a directory code source is used as is |
| Launcher.LibraryPath | gradle-plugin/src/main/kotlin/net/cubizor/gradle/launcher/LauncherBootstrap.kt:64-77 | the system property wins, then the environment variable, even when empty; otherwise `runtime-dependencies` in the jar's directory |
| Launcher.DefaultIsBesideJar | gradle-plugin/src/main/kotlin/net/cubizor/gradle/launcher/LauncherBootstrap.kt:72-73 | with neither setting, the library directory is a sibling of the running jar |
| Launcher.NoMainClassText | gradle-plugin/src/main/kotlin/net/cubizor/gradle/launcher/LauncherBootstrap.kt:91-96 | the error message names both the system property and the environment variable |
| Launcher.MainClassName | gradle-plugin/src/main/kotlin/net/cubizor/gradle/launcher/LauncherBootstrap.kt:83-97 | the property wins, then the environment variable; with neither, an error whose message names both |
| Launcher.NewRuntimeLoader | gradle-plugin/src/main/kotlin/net/cubizor/gradle/launcher/RuntimeDependencyClassLoader.kt:16-63 | the parent defaults to the system class loader; a missing or non-directory path gives no URLs; otherwise only jar files below it |
| Launcher.NewRuntimeLoaderComplete | gradle-plugin/src/main/kotlin/net/cubizor/gradle/launcher/RuntimeDependencyClassLoader.kt:31-53 | every jar file below the library directory ends up among the loader's URLs |
| Launcher.InvokeMainClass | gradle-plugin/src/main/kotlin/net/cubizor/gradle/launcher/LauncherBootstrap.kt:111-141 | the context class loader seen by the application is the new loader; only the application can have replaced it by the time `finally` runs, and the original is restored afterwards whatever happened; a missing class, a missing `main` and an instance `main` each fail with their own message; a throwing application fails |
| Launcher.ContextRestoredAfterAppChangesIt | gradle-plugin/src/main/kotlin/net/cubizor/gradle/launcher/LauncherBootstrap.kt:135-140 | an application that installs its own context loader and throws leaves that loader in place when `finally` runs, and the original is put back |
| Launcher.LauncherMain | gradle-plugin/src/main/kotlin/net/cubizor/gradle/launcher/LauncherBootstrap.kt:28-58 | every failure ends with status 1 and the `Failed to launch application` report; the launch succeeds exactly when a main class is named, loads, has a static `main` and returns; the loader is built from the resolved library path |
| Pipeline.JarFiledUnderArtifactName | gradle-plugin/src/main/kotlin/net/cubizor/gradle/Tasks.kt:30-41 | a jar named `<name>-<version>.jar` with a dash-free version is filed under `<name>/` when downloads are organised by group |
| Pipeline.BootstrapReadsRewrittenManifest | gradle-plugin/src/main/java/net/cubizor/gradle/loader/BootstrapMain.java:40-50 | read back after the jar is written, the rewritten manifest gives the bootstrap the application's main class when the original manifest has a version header, and no main class (an empty main section) when it has none; without an original `Library-Path` the directory is the non-empty property or `libs` |
| Pipeline.RecordedLibraryPathUnread | gradle-plugin/src/main/kotlin/net/cubizor/gradle/RuntimeDependencyPlugin.kt:157-164 | in a jar whose manifest carries `Manifest-Version`, the library directory recorded as `Runtime-Dependency-Library-Path` never reaches the bootstrap: it finds the main class but falls back to `libs` |
| Pipeline.BootstrapReadsRecordsAsJarNames | gradle-plugin/src/main/java/net/cubizor/gradle/loader/BootstrapMain.java:134-155 | the bootstrap takes the Maven Central `REPO:` line and every `DEP:` line of the generated manifest as names of jars to look for |
| Pipeline.CredentialVariablesAgree | gradle-plugin/src/main/kotlin/net/cubizor/gradle/RepositoryUtils.kt:56-59 | the build's `<NAME>_USERNAME`/`_PASSWORD` variables equal the run-time loader's exactly when the repository name holds no `-` and no `.` |
| Models.Lookup | gradle-plugin/src/main/kotlin/net/cubizor/gradle/RepositoryUtils.kt:40 | no value exactly when the key is absent; a value is bound to the key in some entry |
| Models.LookupAt | gradle-plugin/src/main/kotlin/net/cubizor/gradle/RepositoryUtils.kt:40 | in a map without repeated keys the lookup of an entry's key gives that entry's value |
| Models.Put | gradle-plugin/src/main/kotlin/net/cubizor/gradle/RepositoryUtils.kt:40 | `LinkedHashMap` put: keys stay unique; an existing key keeps its position with the new value; a new key is appended; other entries are unchanged; the key reads back as the value |
| Models.DistinctBy | gradle-plugin/src/main/kotlin/net/cubizor/gradle/Tasks.kt:104 | keys of the result are pairwise distinct; the first element of every key is kept; nothing else is kept |
| Models.DistinctByPrefix | gradle-plugin/src/main/kotlin/net/cubizor/gradle/Tasks.kt:104 | elements are kept in the order their keys first appear: the result for a prefix is a prefix of the result |
| Models.DistinctByCount | gradle-plugin/src/main/kotlin/net/cubizor/gradle/InjectionTasks.kt:92-96 | one element is kept per key, so the result is as long as the number of distinct keys |
| Text.RemoveSuffix | gradle-plugin/src/main/kotlin/net/cubizor/gradle/RepositoryUtils.kt:20 | a string ending with the suffix loses exactly that suffix; any other string is unchanged |
| Text.SplitJoin | gradle-plugin/src/main/kotlin/net/cubizor/gradle/Tasks.kt:32-34 | splitting undoes joining when no part holds the separator |
| Text.JoinSplit | gradle-plugin/src/main/kotlin/net/cubizor/gradle/Tasks.kt:32-34 | joining the fields of a split gives the string back |
| Text.SplitAllLength | gradle-plugin/src/main/kotlin/net/cubizor/gradle/Tasks.kt:33 | a split has one field exactly when the separator does not occur |
| Text.JoinSplitLast | gradle-plugin/src/main/kotlin/net/cubizor/gradle/Tasks.kt:34 | dropping the last field and joining again gives the text before the last separator |
| Text.ReadJoinedLines | gradle-plugin/src/main/kotlin/net/cubizor/gradle/Tasks.kt:184-195 | lines joined by `\n` read back as the same lines when none holds a terminator and the last is not empty |
| Text.DropTrailingEmpty | gradle-plugin/src/main/kotlin/net/cubizor/gradle/Tasks.kt:381 | the result is a prefix whose last field is not empty, and every dropped field is empty |
| Text.SubstringBeforeLast | src/main/kotlin/net/cubizor/runtimedependency/RuntimeDependencyPlugin.kt:154 | the text before the last occurrence of the character, which does not occur after it; the whole string when it does not occur |
| Text.IndexOfFrom | src/main/kotlin/net/cubizor/runtimedependency/RuntimeDependencyPlugin.kt:149 | the first occurrence at or after the start, or -1 exactly when there is none |
| Text.SubstringAfter | src/main/kotlin/net/cubizor/runtimedependency/RuntimeDependencyPlugin.kt:149 | the text after the first occurrence of the delimiter, or the whole string when it does not occur |
| Text.KotlinTrimPadded | src/main/kotlin/net/cubizor/runtimedependency/RuntimeDependencyPlugin.kt:150 | trimming removes exactly the white space around text whose ends are not white space |
| Text.ReadLines | gradle-plugin/src/main/kotlin/net/cubizor/gradle/Tasks.kt:184 | no line read holds a line terminator; joining lines and reading them back is the identity (see `Text.ReadJoinedLines`) |
| RepositoryUtils.NormalisingKeepsHost | gradle-plugin/src/main/kotlin/net/cubizor/gradle/RepositoryUtils.kt:8-13 | dropping a trailing `/` and lower-casing decides the same Central host as lower-casing alone |
| LegacyRepositoryUtils.IsMavenLocal | src/main/kotlin/net/cubizor/runtimedependency/RepositoryUtils.kt:15-20 | a URL is local exactly when its lower-cased form starts with `file:` or contains `/.m2/repository`; dropping one trailing `/` changes neither test |
| LegacyRepositoryUtils.LegacyCollectAllRepositories | src/main/kotlin/net/cubizor/runtimedependency/RepositoryUtils.kt:22-75 | the registry is keyed by repository name with distinct keys and URLs, holds no Maven Central entry, has no more entries than declared repositories, and every entry comes from a declared repository |
| ManifestCodec.Encode | gradle-plugin/src/main/kotlin/net/cubizor/gradle/InjectionTasks.kt:279-305 | when every field is encodable, the text reads back line by line as exactly the written lines |
| ManifestCodec.EncodedFrame | gradle-plugin/src/main/kotlin/net/cubizor/gradle/InjectionTasks.kt:279-305 | whatever is recorded, the text opens with the first header comment and ends with the Maven Central line, with no newline after it |
| ManifestCodec.Decode | gradle-plugin/src/main/kotlin/net/cubizor/gradle/Tasks.kt:372-409 | a coordinate or repository is decoded exactly when some line of the text parses to it, and there are no more records than lines |
| ManifestCodec.ParseLine | gradle-plugin/src/main/kotlin/net/cubizor/gradle/Tasks.kt:374-406 | only a trimmed line starting with `DEP:` yields a coordinate and only one starting with `REPO:` a repository; blank and `#` lines yield nothing |
| ManifestCodec.ParseBoolean | gradle-plugin/src/main/kotlin/net/cubizor/gradle/Tasks.kt:405 | `true` in any letter case and nothing else is true |
| ManifestCodec.TrailingSpaceNameLosesPrefix | gradle-plugin/src/main/kotlin/net/cubizor/gradle/Tasks.kt:374 | a repository whose name ends in one space, such as `a `, is written with its prefix last on the line; the trim removes the prefix's space, so the record read back differs from the one written |
| RuntimeResolution.BuildRepository | gradle-plugin/src/main/kotlin/net/cubizor/gradle/Tasks.kt:453-472 | the repository keeps name, URL and the `default` layout; it gets credentials exactly when it needs them, has a prefix and both variables are set, and then with their values |
| Tasks.NameWithoutExtension | gradle-plugin/src/main/kotlin/net/cubizor/gradle/Tasks.kt:32 | a name without `.` is kept; otherwise the result is the text before the last `.`, and the name is the result, `.`, and a `.`-free extension |
| Tasks.RewriteText | gradle-plugin/src/main/kotlin/net/cubizor/gradle/Tasks.kt:184-195 | for a one-line loader declaration and text whose last line is not empty, the written text reads back as the edited lines: the first loader line replaced, or the new line put first |
| StandaloneJar.SkippedResolverEntry | gradle-plugin/src/main/kotlin/net/cubizor/gradle/InjectionTasks.kt:224-230 | among class files, exactly `module-info.class` and those under `META-INF/versions/` or `META-INF/maven/` are skipped |
| BootstrapMain.ParentOnly | gradle-plugin/src/main/java/net/cubizor/gradle/loader/BootstrapMain.java:204-215 | only dotted names go to the parent first, and no name outside the platform namespaces and the loader's own package does |
| BootstrapMain.LoadClassVersusParentFirst | gradle-plugin/src/main/java/net/cubizor/gradle/loader/BootstrapMain.java:195-229 | the loader differs from parent-first delegation exactly for a not yet loaded, non-parent-only class that both its URLs and the parent supply, and there takes its own copy |
| BootstrapMain.RunsManifestMainClass | gradle-plugin/src/main/java/net/cubizor/gradle/loader/BootstrapMain.java:29-117 | without the main-class property, no manifest or no or an empty `Original-Main-Class` exits with status 1; the application runs exactly when that class loads and has a static `main` that returns |
| Launcher.FirstSet | gradle-plugin/src/main/kotlin/net/cubizor/gradle/launcher/LauncherBootstrap.kt:64-97 | the first candidate that is set, present exactly when some candidate is set, with none set before it |
| Launcher.LookupsTakeFirstSet | gradle-plugin/src/main/kotlin/net/cubizor/gradle/launcher/LauncherBootstrap.kt:64-97 | the library path and the main class both take the property, else the environment variable; only the library path falls back to a default |
| Launcher.LauncherMainIsInvocation | gradle-plugin/src/main/kotlin/net/cubizor/gradle/launcher/LauncherBootstrap.kt:28-58 | a lookup failure or an invocation failure ends in status 1 with its text after the common prefix; the launch succeeds exactly when the invocation does |
| LegacyPlugin.LoaderPackageSettles | src/main/kotlin/net/cubizor/runtimedependency/RuntimeDependencyPlugin.kt:70-78 | the configured package changes exactly when it is the default and a different package is detected; choosing again from the result changes nothing |
| Plugin.JarName | gradle-plugin/src/main/kotlin/net/cubizor/gradle/RuntimeDependencyPlugin.kt:121-123 | the name starts with the artifact name and `-`, ends with `.jar`, and holds the version in between |
| Plugin.JarNameDecidedByVersion | gradle-plugin/src/main/kotlin/net/cubizor/gradle/RuntimeDependencyPlugin.kt:121-123 | for one artifact name, two jar names agree exactly when the versions do |
| Pipeline.StandaloneCheckGuardsConfigure | gradle-plugin/src/main/kotlin/net/cubizor/gradle/RuntimeDependencyPlugin.kt:105-116 | once standalone mode passes the main-class check, the jar task never fails for a missing main class, fails exactly when bootstrap extraction does, and writes that main class |
| Pipeline.AnalyzedDependenciesDecode | gradle-plugin/src/main/kotlin/net/cubizor/gradle/RuntimeDependencyPlugin.kt:182-200 | the analysed dependencies, written and read back, are the artifacts' own coordinates in order |
| Pipeline.LegacyCoordinatesSplitBack | src/main/kotlin/net/cubizor/runtimedependency/Tasks.kt:157-158 | each coordinate text the legacy loader hands the resolver separates at `:` into the artifact's group, name and version |
| Text.JavaTrim | gradle-plugin/src/main/kotlin/net/cubizor/gradle/Tasks.kt:374 | the result is the input with only Java white space removed around it, and its ends are not white space |
| Text.JavaTrimPadded | gradle-plugin/src/main/kotlin/net/cubizor/gradle/Tasks.kt:374 | trimming text padded with white space gives the text back when its ends are not white space |
| Text.KotlinTrim | src/main/kotlin/net/cubizor/runtimedependency/RuntimeDependencyPlugin.kt:150 | the result is the input with only Kotlin white space removed around it, and its ends are not white space |
| Text.JavaSplit | gradle-plugin/src/main/kotlin/net/cubizor/gradle/Tasks.kt:381 | a string without the separator is one field; otherwise a prefix of the full split whose fields are separator-free and whose last field is not empty |
| Text.JavaSplitRejoin | gradle-plugin/src/main/kotlin/net/cubizor/gradle/Tasks.kt:381 | joining the fields and adding back the dropped separators gives the string; an empty result means the string is all separators |
| FileTree.PathNameResolves | gradle-plugin/src/main/java/net/cubizor/gradle/loader/BootstrapMain.java:157-163 | the names along a path of named entries, joined with `/`, are found as exactly that path |
| FileTree.NestedNameResolves | gradle-plugin/src/main/java/net/cubizor/gradle/loader/BootstrapMain.java:157-163 | a name `d/x` is taken from subdirectory `d` directly, before any search |
| FileTree.DotIsLibraryDirectory | gradle-plugin/src/main/java/net/cubizor/gradle/loader/BootstrapMain.java:157-163 | the name `.` addresses the library directory itself, which exists, so it is returned |
| FileTree.UpAgain | gradle-plugin/src/main/java/net/cubizor/gradle/loader/BootstrapMain.java:157-163 | when `d` is a subdirectory, `d/../x` addresses the same entry as `x` |
| FileTree.DirectPathPlain | gradle-plugin/src/main/java/net/cubizor/gradle/loader/BootstrapMain.java:157-163 | a plain name addresses something exactly when a direct child has that name, and then the first such child |
| RuntimeResolution.UsableFilesAppend | gradle-plugin/src/main/kotlin/net/cubizor/gradle/Tasks.kt:504-510 | filtering artifacts in two runs and concatenating gives the filter of the whole run, so order is kept |
| RuntimeResolution.FilesPerCoordinate | gradle-plugin/src/main/kotlin/net/cubizor/gradle/Tasks.kt:479-518 | one file list per coordinate: the usable files of a resolved coordinate and nothing for a failed one |
| BootstrapMain.ParentFirstLoad | gradle-plugin/src/main/java/net/cubizor/gradle/loader/BootstrapMain.java:195-229 | the reference parent-first order finds a class exactly when some source has it |
| BootstrapMain.FoundJarsAppend | gradle-plugin/src/main/java/net/cubizor/gradle/loader/BootstrapMain.java:79-86 | the jars found for `a + b` are those found for `a` followed by those found for `b`, so the loop keeps dependency order |
| BootstrapMain.FoundJarsSingle | gradle-plugin/src/main/java/net/cubizor/gradle/loader/BootstrapMain.java:80-85 | one dependency contributes its jar when `findJarFile` finds it and nothing otherwise |
| StandaloneJar.WrittenMainAttributes | gradle-plugin/src/main/kotlin/net/cubizor/gradle/InjectionTasks.kt:79-83 | without a `Manifest-Version` or `Signature-Version` the main section reads back empty; with one every attribute reads back with its value |

## Left out

- Gradle wiring is left out because it is host glue. This covers task registration, `afterEvaluate`, `dependsOn`/`finalizedBy`, extensions, source-set changes, `configurePaperMode`, kapt and the bundling for `runtimeLocalTest`. The helpers receive their Gradle inputs as plain sequences and values.
- The hand-over of jar names into the `dependencies` property of the standalone task (`RuntimeDependencyPlugin.kt:129`) is left out because it feeds strings into a `DependencyInfo` list property and has no logic of its own.
- Maven Resolver is left out. `newRepositorySystem`, `newSession`, `resolveDependencies` and the HTTP transport become one `Resolver` parameter. Transitive graphs, the local cache directory and the network are not modelled.
- File and stream I/O are left out. `JarFile`/`JarOutputStream` streaming, `copyTo`, `mkdirs`, `deleteRecursively` and resource reading are replaced by entry sequences, directory trees and optional resource text.
- `readManifest` (`ManifestCodec.ReadManifest`) models a missing resource but not an exception in the middle of reading, which would keep the records read so far.
- JVM class loading and reflection are left out. `URLClassLoader` internals, `registerAsParallelCapable`, the class-loading locks, the `resolve` flag of `loadClass`, `Method.invoke` and `System.exit` become the delegation decision, a context-loader value and an exit outcome.
- `getRuntimeClassLoader` and `isInitialized` of the generated utility class are left out because they only read the state that `RuntimeResolution.Initialize` produces.
- The Java and YAML text that `generateLoaderClass` and `generateUtilityClass` emit is left out because it is templating. The model keeps the repository, credential and import decisions, and the loader-line rewrite.
- Logging is left out. This covers every `println`, `System.err` and logger call. Only the messages that form part of a result (errors and exit reasons) are kept.
- URI parsing is left out. A repository URL's scheme is the text before the first `:` (`RepositoryUtils.Scheme`).
- `src/main/kotlin/net/cubizor/runtimedependency/Models.kt` is not part of this model. The older variant's `RepositoryInfo` and `DependencyInfo` are inferred from their uses, with the extra `isMavenLocal` and `isFromMavenLocal` fields.
- Text.Lower, Text.Upper: `lowercase()`/`uppercase()` and `equalsIgnoreCase` are modelled on ASCII letters only, because the names and URLs the code case-maps are compared against ASCII text. Locale and Unicode case mapping are not modelled.
- Pipeline.BootstrapReadsRecordsAsJarNames: the `DEP:` half is stated only for versions that do not end in white space, since `String.trim` would otherwise change the line.
- FileTree.FindJarFile: a jar name whose `..` segments climb above the library directory is not resolved, because the model holds only the tree below that directory; such a name falls through to the search.
- Pipeline.LegacyCoordinatesSplitBack: the resolver's `DefaultArtifact` parses the coordinate text itself; its parser is not part of this model, and the lemma states only that separating the text at `:` gives the three fields back.
- StandaloneJar.WrittenMainAttributes: only the main section's version-header rule and attribute order are modelled; the 72-byte line wrapping, UTF-8 encoding and values holding line breaks are not, since the attribute values written here are single-line class names.
- Pipeline.BootstrapReadsRewrittenManifest: `getManifest` reads `/META-INF/MANIFEST.MF` through the class's resource lookup, which the model takes to be the rewritten jar's own manifest; another jar's manifest found first on the class path is not modelled.
