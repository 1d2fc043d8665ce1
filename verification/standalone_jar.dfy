/** `ConfigureStandaloneJarTask` (`InjectionTasks.kt`): the application
    jar is rewritten so that `BootstrapMain` becomes its entry point. The
    manifest's main attributes are overridden, then the original entries,
    the bootstrap classes and the Maven Resolver classes are merged with
    the first writer of a path winning. Archives are entry sequences; the
    streams, the file system and the class loader are parameters. */
module StandaloneJar {
  import opened Common
  import opened Text
  import opened Models

  newtype byte = x: int | 0 <= x < 256

  type Bytes = seq<byte>

  /** One entry of a jar as `JarFile.entries()` lists it. */
  datatype JarEntry = JarEntry(name: string, isDirectory: bool, content: Bytes)

  /** Manifest main attributes: a `LinkedHashMap` whose keys
      (`Attributes.Name`) compare without regard to letter case. */
  type Attributes = OrderedMap<string, string>

  /** No two keys are equal ignoring case, as in any `Attributes`. */
  predicate CaseUnique(m: Attributes) {
    forall i, j :: 0 <= i < j < |m| ==> !EqualsIgnoreCase(m[i].0, m[j].0)
  }

  /** The position of the attribute named `k` (ignoring case), or -1. */
  function AttributeIndex(m: Attributes, k: string): (i: int)
    ensures -1 <= i < |m|
    ensures i >= 0 ==> EqualsIgnoreCase(m[i].0, k)
    ensures forall j :: 0 <= j < |m| && (i < 0 || j < i) ==> !EqualsIgnoreCase(m[j].0, k)
  {
    if m == [] then -1
    else if EqualsIgnoreCase(m[0].0, k) then 0
    else
      var i := AttributeIndex(m[1..], k);
      assert forall j :: 1 <= j < |m| ==> m[j] == m[1..][j - 1];
      if i < 0 then -1 else i + 1
  }

  /** `Attributes.getValue(name)`. */
  function GetValue(m: Attributes, k: string): Option<string> {
    var i := AttributeIndex(m, k);
    if i < 0 then None else Some(m[i].1)
  }

  /** `Attributes.putValue(name, value)`: an attribute of the same name in
      any letter case keeps its key and position and takes the new value;
      otherwise the attribute is appended. */
  function PutValue(m: Attributes, k: string, v: string): (r: Attributes)
    requires CaseUnique(m)
    ensures CaseUnique(r)
    ensures GetValue(r, k) == Some(v)
    ensures |r| == |m| || r == m + [(k, v)]
    ensures forall j :: 0 <= j < |m| && !EqualsIgnoreCase(m[j].0, k) ==> r[j] == m[j]
  {
    var i := AttributeIndex(m, k);
    if i >= 0 then
      var r := m[i := (m[i].0, v)];
      assert forall j :: 0 <= j < |r| ==> r[j].0 == m[j].0;
      assert AttributeIndex(r, k) == i by {
        FirstCaseMatch(r, k, i);
      }
      r
    else
      var r := m + [(k, v)];
      assert forall j :: 0 <= j < |m| ==> r[j] == m[j];
      assert AttributeIndex(r, k) == |m| by {
        FirstCaseMatch(r, k, |m|);
      }
      r
  }

  /** The attribute index is the first case-insensitive match. */
  lemma {:induction false} FirstCaseMatch(m: Attributes, k: string, i: nat)
    requires i < |m| && EqualsIgnoreCase(m[i].0, k)
    requires forall j :: 0 <= j < i ==> !EqualsIgnoreCase(m[j].0, k)
    ensures AttributeIndex(m, k) == i
  {
    if i > 0 {
      assert m[1..][i - 1] == m[i];
      assert forall j :: 0 <= j < i - 1 ==> m[1..][j] == m[j + 1];
      FirstCaseMatch(m[1..], k, i - 1);
    }
  }

  /** Letting the keys of the attributes decide, the lookup of `k2` is not
      disturbed by a `putValue` of a different name. */
  lemma {:induction false} IndexByKeys(m: Attributes, r: Attributes, k: string)
    requires |m| == |r| && forall j :: 0 <= j < |m| ==> m[j].0 == r[j].0
    ensures AttributeIndex(m, k) == AttributeIndex(r, k)
  {
    var i := AttributeIndex(m, k);
    if i >= 0 {
      FirstCaseMatch(r, k, i);
    }
  }

  lemma PutValueKeepsOthers(m: Attributes, k: string, v: string, k2: string)
    requires CaseUnique(m) && !EqualsIgnoreCase(k, k2)
    ensures GetValue(PutValue(m, k, v), k2) == GetValue(m, k2)
  {
    var r := PutValue(m, k, v);
    var i := AttributeIndex(m, k2);
    if |r| == |m| {
      var a := AttributeIndex(m, k);
      assert a >= 0;
      assert r == m[a := (m[a].0, v)];
      IndexByKeys(m, r, k2);
      if i >= 0 {
        assert i != a;
      }
    } else {
      assert forall j :: 0 <= j < |m| ==> r[j] == m[j];
      if i >= 0 {
        FirstCaseMatch(r, k2, i);
      } else {
        assert !EqualsIgnoreCase(r[|m|].0, k2);
      }
    }
  }

  // ---------------------------------------------------------------------
  // The rewritten manifest

  const BootstrapMainClass := "net.cubizor.gradle.loader.BootstrapMain"
  const ManifestPath := "META-INF/MANIFEST.MF"

  lemma AttributeNamesDiffer()
    ensures !EqualsIgnoreCase("Main-Class", "Original-Main-Class")
  {
    assert |Lower("Main-Class")| != |Lower("Original-Main-Class")|;
  }

  /** The new manifest: a copy of the original (or an empty one), with
      `Main-Class` set to the bootstrap class and `Original-Main-Class` to
      the application's main class; every other attribute is kept where it
      was. */
  function RewriteManifest(original: Option<Attributes>, mainClass: string): (r: Attributes)
    requires original.Some? ==> CaseUnique(original.value)
    ensures CaseUnique(r)
    ensures GetValue(r, "Main-Class") == Some(BootstrapMainClass)
    ensures GetValue(r, "Original-Main-Class") == Some(mainClass)
    ensures var base := original.OrElse([]);
      |base| <= |r| &&
      forall j :: 0 <= j < |base| && !EqualsIgnoreCase(base[j].0, "Main-Class") && !EqualsIgnoreCase(base[j].0, "Original-Main-Class") ==>
        r[j] == base[j]
  {
    var base := original.OrElse([]);
    var withMain := PutValue(base, "Main-Class", BootstrapMainClass);
    var r := PutValue(withMain, "Original-Main-Class", mainClass);
    AttributeNamesDiffer();
    PutValueKeepsOthers(withMain, "Original-Main-Class", mainClass, "Main-Class");
    r
  }

  /** Without a manifest in the input, the new one holds just the two
      attributes. */
  lemma AbsentManifestCountsAsEmpty(mainClass: string)
    ensures RewriteManifest(None, mainClass) == [("Main-Class", BootstrapMainClass), ("Original-Main-Class", mainClass)]
  {
    var withMain := PutValue([], "Main-Class", BootstrapMainClass);
    assert withMain == [("Main-Class", BootstrapMainClass)];
    AttributeNamesDiffer();
    assert AttributeIndex(withMain, "Original-Main-Class") < 0;
  }

  // ---------------------------------------------------------------------
  // Writing the manifest into the new jar and reading it back

  const ManifestVersion := "Manifest-Version"
  const SignatureVersion := "Signature-Version"

  /** The attributes hold a `Manifest-Version` or `Signature-Version`. */
  predicate HasVersionHeader(m: Attributes) {
    GetValue(m, ManifestVersion).Some? || GetValue(m, SignatureVersion).Some?
  }

  /** The main attributes as `new Manifest(stream)` reads them back after
      `JarOutputStream` wrote them with `Attributes.writeMain`: the version
      header (`Manifest-Version`, else `Signature-Version`) comes first
      under its standard name, then the other attributes in order; with
      no version header nothing of the main section is written, so nothing
      is read back. */
  function WrittenMainAttributes(m: Attributes): (r: Attributes)
    requires CaseUnique(m)
    ensures !HasVersionHeader(m) ==> r == []
    ensures HasVersionHeader(m) ==> |r| == |m| && forall k :: GetValue(r, k) == GetValue(m, k)
  {
    var name := if GetValue(m, ManifestVersion).Some? then ManifestVersion else SignatureVersion;
    var v := AttributeIndex(m, name);
    if v < 0 then []
    else
      forall k ensures GetValue([(name, m[v].1)] + m[..v] + m[v + 1..], k) == GetValue(m, k) {
        MovedToFront(m, v, name, k);
      }
      [(name, m[v].1)] + m[..v] + m[v + 1..]
  }

  /** Moving one attribute to the front, under a name equal to its own
      ignoring case, changes no lookup. */
  lemma MovedToFront(m: Attributes, v: nat, name: string, k: string)
    requires CaseUnique(m) && v < |m| && EqualsIgnoreCase(m[v].0, name)
    ensures GetValue([(name, m[v].1)] + m[..v] + m[v + 1..], k) == GetValue(m, k)
  {
    var r := [(name, m[v].1)] + m[..v] + m[v + 1..];
    FrontShape(m, v, name);
    var i := AttributeIndex(m, k);
    if i == v {
      FirstCaseMatch(r, k, 0);
    } else if i >= 0 {
      assert !EqualsIgnoreCase(m[v].0, k);
      FirstCaseMatch(r, k, if i < v then i + 1 else i);
    } else {
      assert forall j :: 0 <= j < |r| ==> !EqualsIgnoreCase(r[j].0, k);
    }
  }

  /** Where each attribute sits after the move. */
  lemma FrontShape(m: Attributes, v: nat, name: string)
    requires v < |m|
    ensures var r := [(name, m[v].1)] + m[..v] + m[v + 1..];
      && |r| == |m| && r[0] == (name, m[v].1)
      && (forall j :: 0 <= j < v ==> r[j + 1] == m[j])
      && (forall j :: v < j < |m| ==> r[j] == m[j])
  {
  }

  // ---------------------------------------------------------------------
  // extractBootstrapClasses / extractFromClassLoader

  const BootstrapPrefix := "net/cubizor/gradle/loader/BootstrapMain"

  /** The five class files the class-loader fallback asks for, in order. */
  const FallbackClassNames := [
    "net/cubizor/gradle/loader/BootstrapMain.class",
    "net/cubizor/gradle/loader/BootstrapMain$RuntimeClassLoader.class",
    "net/cubizor/gradle/loader/BootstrapMain$ManifestData.class",
    "net/cubizor/gradle/loader/BootstrapMain$DependencyCoordinate.class",
    "net/cubizor/gradle/loader/BootstrapMain$RepositoryInfo.class"]

  const NoBootstrapInJar := "[RuntimeDependency] Could not find BootstrapMain classes in plugin JAR"
  const NoBootstrapInClassLoader := "[RuntimeDependency] Could not load BootstrapMain classes from classloader"

  /** Where the plugin's own classes come from: no code source, or a code
      source path that may be missing, may be a directory, and otherwise
      lists jar entries. */
  datatype PluginLocation = NoCodeSource | CodeSource(onDisk: bool, isFile: bool, entries: seq<JarEntry>)

  predicate UsablePluginJar(loc: PluginLocation) {
    loc.CodeSource? && loc.onDisk && loc.isFile
  }

  predicate IsBootstrapClass(name: string) {
    StartsWith(name, BootstrapPrefix) && EndsWith(name, ".class")
  }

  function Path(e: (string, Bytes)): string {
    e.0
  }

  /** `classes[name] = bytes` for every pair in order. */
  function PutAll(m: OrderedMap<string, Bytes>, xs: seq<(string, Bytes)>): (r: OrderedMap<string, Bytes>)
    requires UniqueKeys(m)
    ensures UniqueKeys(r)
    ensures forall k :: k in Keys(r) <==> k in Keys(m) || k in Keys(xs)
    decreases |xs|
  {
    if xs == [] then m
    else
      var m' := Put(m, xs[0].0, xs[0].1);
      assert forall k :: k in Keys(m') <==> k in Keys(m) || k == xs[0].0 by {
        if xs[0].0 !in Keys(m) {
          assert Keys(m') == Keys(m) + [xs[0].0];
        }
      }
      assert Keys(xs) == [xs[0].0] + Keys(xs[1..]);
      PutAll(m', xs[1..])
  }

  /** The bootstrap entries of the plugin jar, as path and content. */
  function BootstrapEntries(entries: seq<JarEntry>): (r: seq<(string, Bytes)>)
    ensures forall i :: 0 <= i < |r| ==> IsBootstrapClass(r[i].0)
    ensures forall i :: 0 <= i < |entries| && IsBootstrapClass(entries[i].name) ==> (entries[i].name, entries[i].content) in r
  {
    if entries == [] then []
    else
      var rest := BootstrapEntries(entries[1..]);
      assert forall i :: 1 <= i < |entries| ==> entries[i] == entries[1..][i - 1];
      if IsBootstrapClass(entries[0].name) then [(entries[0].name, entries[0].content)] + rest else rest
  }

  /** The fallback: the listed names the class loader can supply, in order. */
  function ClassLoaderEntries(names: seq<string>, resources: map<string, Bytes>): (r: seq<(string, Bytes)>)
    ensures forall i :: 0 <= i < |r| ==> r[i].0 in names && r[i].0 in resources && r[i].1 == resources[r[i].0]
    ensures forall n :: n in names && n in resources ==> (n, resources[n]) in r
  {
    if names == [] then []
    else
      var rest := ClassLoaderEntries(names[1..], resources);
      if names[0] in resources then [(names[0], resources[names[0]])] + rest else rest
  }

  /** The names of the jar's entries, in order. */
  function EntryNames(entries: seq<JarEntry>): (r: seq<string>)
    ensures |r| == |entries| && forall i :: 0 <= i < |entries| ==> r[i] == entries[i].name
  {
    seq(|entries|, i requires 0 <= i < |entries| => entries[i].name)
  }

  /** `extractBootstrapClasses`: the `BootstrapMain*.class` entries of the
      plugin jar, or the class-loader fallback when the code source is
      unknown, missing or not a file; an empty result is an error either
      way. */
  function ExtractBootstrap(loc: PluginLocation, resources: map<string, Bytes>): (r: Result<OrderedMap<string, Bytes>>)
    ensures r.Ok? ==> r.value != [] && UniqueKeys(r.value)
    ensures UsablePluginJar(loc) ==>
      (r.Err? <==> forall i :: 0 <= i < |loc.entries| ==> !IsBootstrapClass(loc.entries[i].name))
    ensures UsablePluginJar(loc) && r.Err? ==> r.message == NoBootstrapInJar
    ensures UsablePluginJar(loc) && r.Ok? ==>
      forall k :: k in Keys(r.value) <==> k in EntryNames(loc.entries) && IsBootstrapClass(k)
    ensures !UsablePluginJar(loc) ==>
      (r.Err? <==> forall n :: n in FallbackClassNames ==> n !in resources)
    ensures !UsablePluginJar(loc) && r.Err? ==> r.message == NoBootstrapInClassLoader
    ensures !UsablePluginJar(loc) && r.Ok? ==> r.value == ClassLoaderEntries(FallbackClassNames, resources)
  {
    if UsablePluginJar(loc) then BootstrapFromJar(loc.entries)
    else BootstrapFromClassLoader(resources)
  }

  /** The bootstrap classes found among the plugin jar's entries, each name
      at its first position with its last content; none is an error. */
  function BootstrapFromJar(entries: seq<JarEntry>): (r: Result<OrderedMap<string, Bytes>>)
    ensures r.Ok? ==> r.value != [] && UniqueKeys(r.value)
    ensures r.Err? <==> forall i :: 0 <= i < |entries| ==> !IsBootstrapClass(entries[i].name)
    ensures r.Err? ==> r.message == NoBootstrapInJar
    ensures r.Ok? ==>
      forall k :: k in Keys(r.value) <==> k in EntryNames(entries) && IsBootstrapClass(k)
  {
    var classes := PutAll([], BootstrapEntries(entries));
    BootstrapClassNames(entries);
    if classes == [] then Err(NoBootstrapInJar)
    else
      assert classes[0].0 in Keys(classes);
      Ok(classes)
  }

  /** The names collected from the plugin jar are exactly its bootstrap
      class entries. */
  lemma BootstrapClassNames(entries: seq<JarEntry>)
    ensures forall k :: k in Keys(PutAll([], BootstrapEntries(entries))) <==>
      k in EntryNames(entries) && IsBootstrapClass(k)
  {
    forall k | k in Keys(PutAll([], BootstrapEntries(entries)))
      ensures k in EntryNames(entries) && IsBootstrapClass(k)
    {
      var found := BootstrapEntries(entries);
      var j :| 0 <= j < |found| && Keys(found)[j] == k;
      BootstrapEntriesFrom(entries, j);
    }
    forall k | k in EntryNames(entries) && IsBootstrapClass(k)
      ensures k in Keys(PutAll([], BootstrapEntries(entries)))
    {
      var i :| 0 <= i < |entries| && entries[i].name == k && IsBootstrapClass(k);
      EntryCollected(entries, i);
    }
  }

  lemma EntryCollected(entries: seq<JarEntry>, i: nat)
    requires i < |entries| && IsBootstrapClass(entries[i].name)
    ensures entries[i].name in Keys(PutAll([], BootstrapEntries(entries)))
  {
    var found := BootstrapEntries(entries);
    var e := (entries[i].name, entries[i].content);
    var j :| 0 <= j < |found| && found[j] == e;
    assert Keys(found)[j] == entries[i].name;
  }

  /** The fallback classes the class loader can supply; none is an error. */
  function BootstrapFromClassLoader(resources: map<string, Bytes>): (r: Result<OrderedMap<string, Bytes>>)
    ensures r.Ok? ==> r.value != [] && UniqueKeys(r.value)
    ensures r.Err? <==> forall n :: n in FallbackClassNames ==> n !in resources
    ensures r.Err? ==> r.message == NoBootstrapInClassLoader
    ensures r.Ok? ==> r.value == ClassLoaderEntries(FallbackClassNames, resources)
  {
    var classes := ClassLoaderEntries(FallbackClassNames, resources);
    if classes == [] then
      Err(NoBootstrapInClassLoader)
    else
      assert UniqueKeys(classes) by {
        ClassLoaderEntriesUnique(FallbackClassNames, resources);
      }
      assert classes[0].0 in FallbackClassNames && classes[0].0 in resources;
      Ok(classes)
  }

  lemma {:induction false} BootstrapEntriesFrom(entries: seq<JarEntry>, j: nat)
    requires j < |BootstrapEntries(entries)|
    ensures BootstrapEntries(entries)[j].0 in EntryNames(entries)
  {
    var rest := BootstrapEntries(entries[1..]);
    if IsBootstrapClass(entries[0].name) && j == 0 {
      assert EntryNames(entries)[0] == entries[0].name;
    } else {
      var j' := if IsBootstrapClass(entries[0].name) then j - 1 else j;
      BootstrapEntriesFrom(entries[1..], j');
      var i :| 0 <= i < |entries[1..]| && EntryNames(entries[1..])[i] == rest[j'].0;
      assert EntryNames(entries)[i + 1] == entries[1..][i].name;
    }
  }

  lemma {:induction false} ClassLoaderEntriesUnique(names: seq<string>, resources: map<string, Bytes>)
    requires forall i, j :: 0 <= i < j < |names| ==> names[i] != names[j]
    ensures UniqueKeys(ClassLoaderEntries(names, resources))
  {
    if names != [] {
      ClassLoaderEntriesUnique(names[1..], resources);
      var rest := ClassLoaderEntries(names[1..], resources);
      assert forall i :: 0 <= i < |rest| ==> rest[i].0 != names[0] by {
        forall i | 0 <= i < |rest|
          ensures rest[i].0 != names[0]
        {
          var k :| 0 <= k < |names[1..]| && names[1..][k] == rest[i].0;
          assert names[k + 1] == names[1..][k];
        }
      }
    }
  }

  // ---------------------------------------------------------------------
  // extractResolverClasses

  /** Reading a jar either lists all its entries or fails part-way, after
      the entries read so far (none, when the jar cannot be opened). */
  datatype JarRead = Complete(entries: seq<JarEntry>) | Failed(readBefore: seq<JarEntry>)

  /** One file of the resolver configuration. */
  datatype ResolverJar = ResolverJar(fileName: string, onDisk: bool, isFile: bool, read: JarRead)

  /** Missing files, directories and names not ending in `.jar` are skipped. */
  predicate AcceptedJar(j: ResolverJar) {
    j.onDisk && j.isFile && EndsWith(j.fileName, ".jar")
  }

  /** The entries a jar yields before it is closed or fails. */
  function EntriesRead(j: ResolverJar): seq<JarEntry> {
    match j.read
    case Complete(es) => es
    case Failed(es) => es
  }

  /** Entries that must not be merged into the application jar: module
      descriptors, multi-release and Maven metadata, the manifest and
      signature files. */
  predicate SkippedResolverEntry(name: string): (r: bool)
    ensures EndsWith(name, ".class") ==>
      (r <==> name == "module-info.class" || StartsWith(name, "META-INF/versions/") || StartsWith(name, "META-INF/maven/"))
  {
    ClassNameEndings(name);
    || name == "module-info.class"
    || StartsWith(name, "META-INF/versions/")
    || StartsWith(name, "META-INF/maven/")
    || name == ManifestPath
    || EndsWith(name, ".SF") || EndsWith(name, ".DSA") || EndsWith(name, ".RSA")
  }

  /** A class file name is neither the manifest nor a signature file. */
  lemma ClassNameEndings(name: string)
    ensures EndsWith(name, ".class") ==>
      name != ManifestPath && !EndsWith(name, ".SF") && !EndsWith(name, ".DSA") && !EndsWith(name, ".RSA")
  {
    if EndsWith(name, ".class") {
      assert name[|name| - 1] == 's';
      assert ManifestPath[|ManifestPath| - 1] == 'F';
    }
  }

  predicate KeptResolverEntry(e: JarEntry) {
    !e.isDirectory && !SkippedResolverEntry(e.name)
  }

  /** The (path, content) pairs of the entries worth merging, in order. */
  function KeptEntries(es: seq<JarEntry>): (r: seq<(string, Bytes)>)
    ensures forall x :: x in r ==> exists e :: e in es && KeptResolverEntry(e) && x == (e.name, e.content)
    ensures forall e :: e in es && KeptResolverEntry(e) ==> (e.name, e.content) in r
  {
    if es == [] then []
    else
      var rest := KeptEntries(es[1..]);
      if KeptResolverEntry(es[0]) then [(es[0].name, es[0].content)] + rest else rest
  }

  /** The candidates of all accepted jars, jar after jar. */
  function ResolverCandidates(jars: seq<ResolverJar>): (r: seq<(string, Bytes)>)
    ensures forall i :: 0 <= i < |r| ==> !SkippedResolverEntry(r[i].0)
  {
    if jars == [] then []
    else
      var rest := ResolverCandidates(jars[1..]);
      if AcceptedJar(jars[0]) then
        var own := KeptEntries(EntriesRead(jars[0]));
        assert forall i :: 0 <= i < |own| ==> !SkippedResolverEntry(own[i].0) by {
          forall i | 0 <= i < |own|
            ensures !SkippedResolverEntry(own[i].0)
          {
            var es := EntriesRead(jars[0]);
            assert own[i] in own;
            var e :| e in es && KeptResolverEntry(e) && own[i] == (e.name, e.content);
          }
        }
        own + rest
      else rest
  }

  /** `extractResolverClasses`: for every path, the entry of the first jar
      (and first entry) that supplies it; entries whose path an earlier
      candidate already supplied are dropped. */
  function ExtractResolver(jars: seq<ResolverJar>): (r: OrderedMap<string, Bytes>)
    ensures UniqueKeys(r)
    ensures forall i :: 0 <= i < |r| ==> !SkippedResolverEntry(r[i].0)
    ensures var cs := ResolverCandidates(jars);
      forall c :: 0 <= c < |cs| && FirstOfKey(cs, Path, c) ==> cs[c] in r
    ensures var cs := ResolverCandidates(jars);
      forall x :: x in r ==> x in cs
  {
    var cs := ResolverCandidates(jars);
    var r := DistinctBy(cs, Path);
    forall x | x in r
      ensures x in cs && !SkippedResolverEntry(x.0)
    {
      var c :| 0 <= c < |cs| && FirstOfKey(cs, Path, c) && cs[c] == x;
    }
    r
  }

  /** A jar that fails part-way still contributes the entries read before
      the failure. */
  lemma FailedJarKeepsEarlierEntries(name: string, e: JarEntry)
    requires KeptResolverEntry(e) && EndsWith(name, ".jar")
    ensures ExtractResolver([ResolverJar(name, true, true, Failed([e]))]) == [(e.name, e.content)]
  {
    var j := ResolverJar(name, true, true, Failed([e]));
    assert [e][1..] == [];
    assert KeptEntries([e]) == [(e.name, e.content)];
    assert [j][1..] == [];
    assert ResolverCandidates([j]) == [(e.name, e.content)];
    var cs := [(e.name, e.content)];
    assert cs[..0] == [];
    assert DistinctBy(cs, Path) == cs;
  }

  // ---------------------------------------------------------------------
  // configure

  /** The application jar as read: its manifest, if any, and its entries. */
  datatype InputJar = InputJar(manifest: Option<Attributes>, entries: seq<JarEntry>)

  /** The written jar: the manifest `JarOutputStream` writes first, the
      entries after it, and the number of paths `addedEntries` recorded. */
  datatype Configured = Configured(manifest: Attributes, entries: OrderedMap<string, Bytes>, total: nat)

  const NoMainClass := "[RuntimeDependency] No main class specified for standalone mode"

  /** The original entries except any spelling of the manifest path. */
  function CopiedEntries(es: seq<JarEntry>): (r: seq<(string, Bytes)>)
    ensures forall i :: 0 <= i < |r| ==> !EqualsIgnoreCase(r[i].0, ManifestPath)
    ensures forall k :: 0 <= k < |es| && !EqualsIgnoreCase(es[k].name, ManifestPath) ==> (es[k].name, es[k].content) in r
  {
    if es == [] then []
    else
      var rest := CopiedEntries(es[1..]);
      assert forall k :: 1 <= k < |es| ==> es[k] == es[1..][k - 1];
      if EqualsIgnoreCase(es[0].name, ManifestPath) then rest else [(es[0].name, es[0].content)] + rest
  }

  /** Everything offered for writing, in writing order. */
  function Offered(input: InputJar, bootstrap: OrderedMap<string, Bytes>, resolver: OrderedMap<string, Bytes>): seq<(string, Bytes)> {
    CopiedEntries(input.entries) + bootstrap + resolver
  }

  lemma ManifestPathNotBootstrap()
    ensures !IsBootstrapClass(ManifestPath)
  {
    assert ManifestPath[0] != BootstrapPrefix[0];
  }

  lemma ManifestPathMatchesItself()
    ensures EqualsIgnoreCase(ManifestPath, ManifestPath)
  {
  }

  /** `configure`: an empty main class fails before anything is read; a
      failed bootstrap extraction fails the task; otherwise the jar is
      written with the new manifest and, per path, the first of original,
      bootstrap and resolver entries. No path is written twice, and the
      manifest path itself is never written as an entry. */
  function Configure(mainClass: string, input: InputJar, plugin: PluginLocation,
                     resources: map<string, Bytes>, resolverJars: seq<ResolverJar>): (r: Result<Configured>)
    requires input.manifest.Some? ==> CaseUnique(input.manifest.value)
    ensures mainClass == "" ==> r == Err(NoMainClass)
    ensures mainClass != "" ==> (r.Err? <==> ExtractBootstrap(plugin, resources).Err?)
    ensures mainClass != "" && r.Err? ==> r.message == ExtractBootstrap(plugin, resources).message
    ensures r.Ok? ==> UniqueKeys(r.value.entries) && r.value.total == |r.value.entries|
    ensures r.Ok? ==> forall i :: 0 <= i < |r.value.entries| ==> r.value.entries[i].0 != ManifestPath
    ensures r.Ok? ==> r.value.manifest == RewriteManifest(input.manifest, mainClass)
    ensures r.Ok? ==> r.value.entries == DistinctBy(Offered(input, ExtractBootstrap(plugin, resources).value, ExtractResolver(resolverJars)), Path)
  {
    if mainClass == "" then Err(NoMainClass)
    else
      var bootstrap :- ExtractBootstrap(plugin, resources);
      var resolver := ExtractResolver(resolverJars);
      var offered := Offered(input, bootstrap, resolver);
      var entries := DistinctBy(offered, Path);
      assert forall i :: 0 <= i < |offered| ==> offered[i].0 != ManifestPath by {
        OfferedNotManifest(input, plugin, resources, bootstrap, resolver);
      }
      forall i | 0 <= i < |entries|
        ensures entries[i].0 != ManifestPath
      {
        assert entries[i] in entries;
      }
      Ok(Configured(RewriteManifest(input.manifest, mainClass), entries, |entries|))
  }

  /** No entry of `s` has path `p`. */
  predicate LacksPath(s: seq<(string, Bytes)>, p: string) {
    forall i :: 0 <= i < |s| ==> s[i].0 != p
  }

  lemma LacksPathJoin(a: seq<(string, Bytes)>, b: seq<(string, Bytes)>, c: seq<(string, Bytes)>, p: string)
    requires LacksPath(a, p) && LacksPath(b, p) && LacksPath(c, p)
    ensures LacksPath(a + b + c, p)
  {
  }

  lemma ManifestPathNotFallback()
    ensures ManifestPath !in FallbackClassNames
  {
    assert forall i :: 0 <= i < |FallbackClassNames| ==> |FallbackClassNames[i]| > |ManifestPath|;
  }

  lemma OfferedNotManifest(input: InputJar, plugin: PluginLocation, resources: map<string, Bytes>,
                           bootstrap: OrderedMap<string, Bytes>, resolver: OrderedMap<string, Bytes>)
    requires ExtractBootstrap(plugin, resources) == Ok(bootstrap)
    requires forall i :: 0 <= i < |resolver| ==> !SkippedResolverEntry(resolver[i].0)
    ensures forall i :: 0 <= i < |Offered(input, bootstrap, resolver)| ==> Offered(input, bootstrap, resolver)[i].0 != ManifestPath
  {
    var copied := CopiedEntries(input.entries);
    assert LacksPath(copied, ManifestPath) by {
      ManifestPathMatchesItself();
    }
    assert LacksPath(bootstrap, ManifestPath) by {
      ManifestPathNotBootstrap();
      ManifestPathNotFallback();
      forall b | 0 <= b < |bootstrap|
        ensures bootstrap[b].0 != ManifestPath
      {
        assert bootstrap[b].0 in Keys(bootstrap);
      }
    }
    assert LacksPath(resolver, ManifestPath);
    LacksPathJoin(copied, bootstrap, resolver, ManifestPath);
  }

  /** The merged jar begins with the original entries, in their order,
      each path with its first content. */
  lemma OriginalsFirst(input: InputJar, bootstrap: OrderedMap<string, Bytes>, resolver: OrderedMap<string, Bytes>)
    ensures var copied := DistinctBy(CopiedEntries(input.entries), Path);
      var merged := DistinctBy(Offered(input, bootstrap, resolver), Path);
      |copied| <= |merged| && merged[..|copied|] == copied
  {
    var offered := Offered(input, bootstrap, resolver);
    var n := |CopiedEntries(input.entries)|;
    assert offered[..n] == CopiedEntries(input.entries);
    DistinctByPrefix(offered, Path, n);
  }

  /** A bootstrap or resolver entry never displaces an original entry: a
      written entry whose path the application jar already had is one of
      the original entries. */
  lemma OriginalContentWins(input: InputJar, bootstrap: OrderedMap<string, Bytes>, resolver: OrderedMap<string, Bytes>, x: (string, Bytes))
    requires x in DistinctBy(Offered(input, bootstrap, resolver), Path)
    requires x.0 in Keys(CopiedEntries(input.entries))
    ensures x in CopiedEntries(input.entries)
  {
    var copied := CopiedEntries(input.entries);
    var offered := Offered(input, bootstrap, resolver);
    var i :| 0 <= i < |offered| && FirstOfKey(offered, Path, i) && offered[i] == x;
    var j :| 0 <= j < |copied| && copied[j].0 == x.0;
    assert offered[j] == copied[j];
    assert offered[i] == copied[i];
  }

  /** Resolver entries are written only for paths neither the application
      jar nor the bootstrap classes supply. */
  lemma ResolverOnlyFillsGaps(input: InputJar, bootstrap: OrderedMap<string, Bytes>, resolver: OrderedMap<string, Bytes>, x: (string, Bytes))
    requires x in DistinctBy(Offered(input, bootstrap, resolver), Path)
    requires x !in CopiedEntries(input.entries) + bootstrap
    ensures x.0 !in Keys(CopiedEntries(input.entries) + bootstrap)
    ensures x in resolver
  {
    var front := CopiedEntries(input.entries) + bootstrap;
    assert Offered(input, bootstrap, resolver) == front + resolver;
    KeptFromBack(front, resolver, x);
  }

  /** An element kept by `distinctBy` that is not in the front part comes
      from the back part, and no element of the front part has its key. */
  lemma KeptFromBack(front: seq<(string, Bytes)>, back: seq<(string, Bytes)>, x: (string, Bytes))
    requires x in DistinctBy(front + back, Path) && x !in front
    ensures x.0 !in Keys(front)
    ensures x in back
  {
    var xs := front + back;
    var i :| 0 <= i < |xs| && FirstOfKey(xs, Path, i) && xs[i] == x;
    assert forall k :: 0 <= k < |front| ==> xs[k] == front[k];
    assert xs[i] == back[i - |front|];
    forall j | 0 <= j < |front|
      ensures front[j].0 != x.0
    {
      assert xs[j] == front[j];
    }
  }

  /** `addedEntries.size`: one per distinct path offered. */
  lemma TotalIsDistinctPaths(mainClass: string, input: InputJar, plugin: PluginLocation,
                             resources: map<string, Bytes>, resolverJars: seq<ResolverJar>)
    requires input.manifest.Some? ==> CaseUnique(input.manifest.value)
    requires Configure(mainClass, input, plugin, resources, resolverJars).Ok?
    ensures Configure(mainClass, input, plugin, resources, resolverJars).value.total
         == |KeySet(Offered(input, ExtractBootstrap(plugin, resources).value, ExtractResolver(resolverJars)), Path)|
  {
    DistinctByCount(Offered(input, ExtractBootstrap(plugin, resources).value, ExtractResolver(resolverJars)), Path);
  }

  /** The original manifest is skipped in any letter case, but a resolver
      jar's manifest in another case (`meta-inf/manifest.mf`) passes the
      exact-case filter and is written as an ordinary entry. */
  lemma LowerCaseManifestFromResolver(c: Bytes)
    ensures var e := JarEntry("meta-inf/manifest.mf", false, c);
      EqualsIgnoreCase(e.name, ManifestPath) && KeptResolverEntry(e)
  {
    LowerCaseManifestMatches();
    LowerCaseManifestKept();
  }

  lemma LowerCaseManifestMatches()
    ensures EqualsIgnoreCase("meta-inf/manifest.mf", ManifestPath)
  {
    var n := "meta-inf/manifest.mf";
    assert forall i :: 0 <= i < |n| ==> AsciiLower(n[i]) == AsciiLower(ManifestPath[i]);
  }

  lemma LowerCaseManifestKept()
    ensures !SkippedResolverEntry("meta-inf/manifest.mf")
  {
    var n := "meta-inf/manifest.mf";
    assert n != ManifestPath by { assert n[0] != ManifestPath[0]; }
    assert !StartsWith(n, "META-INF/versions/") by { assert n[0] != 'M'; }
    assert !StartsWith(n, "META-INF/maven/") by { assert n[0] != 'M'; }
    assert !EndsWith(n, ".SF") by { assert n[|n| - 1] != 'F'; }
    assert !EndsWith(n, ".DSA") by { assert n[|n| - 1] != 'A'; }
    assert !EndsWith(n, ".RSA") by { assert n[|n| - 1] != 'A'; }
    assert n != "module-info.class" by { assert |n| != |"module-info.class"|; }
  }

  // ---------------------------------------------------------------------
  // Replacing the input

  /** After writing, a distinct output file is copied over the input and
      deleted; when input and output are the same file nothing moves. */
  function ReplaceInput(files: map<string, Bytes>, input: string, output: string): (r: map<string, Bytes>)
    requires output in files
    ensures input in r && r[input] == files[output]
    ensures input != output ==> output !in r
    ensures forall f :: f != input && f != output ==> (f in r <==> f in files) && (f in r ==> r[f] == files[f])
  {
    if input != output then files[input := files[output]] - {output} else files
  }

  /** Replacing is done once: a second run with the same names finds no
      output file to copy. */
  lemma ReplaceConsumesOutput(files: map<string, Bytes>, input: string, output: string)
    requires output in files && input != output
    ensures output !in ReplaceInput(files, input, output)
    ensures ReplaceInput(files, input, output).Keys == files.Keys - {output} + {input}
  {
  }
}
