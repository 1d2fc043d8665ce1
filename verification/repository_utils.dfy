/** `RepositoryUtils` of the current plugin: recognising Maven Central,
    collecting the project's declared Maven repositories into a name-keyed
    registry, and filling in credentials from project properties or the
    environment. Gradle's repository container is passed in as the list of
    declared repositories, in declaration order. */
module RepositoryUtils {
  import opened Common
  import opened Text
  import opened Models

  // ---------------------------------------------------------------------
  // Maven Central

  /** The URL with one trailing `/` removed and lower-cased. */
  function NormalizedUrl(url: string): string {
    Lower(RemoveSuffix(url, "/"))
  }

  /** One of the three Maven Central host names occurs in `s`. */
  predicate NamesCentralHost(s: string) {
    Contains(s, "repo.maven.apache.org") || Contains(s, "repo1.maven.org") || Contains(s, "repo.maven.org")
  }

  /** `isMavenCentral`, on the URL with one trailing `/` dropped and
      lower-cased. Dropping the `/` never changes the verdict: a URL is
      Maven Central exactly when its lower-cased form names a Central host. */
  predicate IsMavenCentral(url: string): (r: bool)
    ensures r <==> NamesCentralHost(Lower(url))
  {
    NormalisingKeepsHost(url);
    NamesCentralHost(NormalizedUrl(url))
  }

  /** Dropping a final `/` cannot hide or reveal a host name that does not
      end in `/`. */
  lemma ContainsWithoutSlash(s: string, h: string)
    requires h != [] && h[|h| - 1] != '/'
    requires s != [] && s[|s| - 1] == '/'
    ensures Contains(s, h) <==> Contains(s[..|s| - 1], h)
  {
    var t := s[..|s| - 1];
    if Contains(s, h) {
      var i :| 0 <= i <= |s| && OccursAt(s, h, i);
      assert s[i + |h| - 1] == h[|h| - 1];
      assert t[i..i + |h|] == s[i..i + |h|];
      assert OccursAt(t, h, i);
    }
    if Contains(t, h) {
      var i :| 0 <= i <= |t| && OccursAt(t, h, i);
      assert s[i..i + |h|] == t[i..i + |h|];
      assert OccursAt(s, h, i);
    }
  }

  lemma LowerDropLast(s: string)
    requires s != []
    ensures Lower(s[..|s| - 1]) == Lower(s)[..|s| - 1]
  {
  }

  /** The trailing-slash removal cannot hide or reveal a Central host. */
  lemma NormalisingKeepsHost(url: string)
    ensures NamesCentralHost(NormalizedUrl(url)) <==> NamesCentralHost(Lower(url))
  {
    if EndsWith(url, "/") {
      var l := Lower(url);
      assert l[|l| - 1] == '/';
      LowerDropLast(url);
      assert RemoveSuffix(url, "/") == url[..|url| - 1];
      ContainsWithoutSlash(l, "repo.maven.apache.org");
      ContainsWithoutSlash(l, "repo1.maven.org");
      ContainsWithoutSlash(l, "repo.maven.org");
    }
  }

  /** The test ignores ASCII case: URLs equal up to case get the same verdict. */
  lemma MavenCentralIgnoresCase(a: string, b: string)
    requires Lower(a) == Lower(b)
    ensures IsMavenCentral(a) <==> IsMavenCentral(b)
  {
  }

  /** The URL the plugins fall back to is recognised as Maven Central. */
  lemma DefaultCentralUrl()
    ensures IsMavenCentral("https://repo1.maven.org/maven2/")
  {
    var a, b := "https://", "/maven2/";
    assert "https://repo1.maven.org/maven2/" == a + "repo1.maven.org" + b;
    HostBetween(a, b);
  }

  /** Any URL with a Central host name in it is Maven Central, whatever
      surrounds the name and in whatever letter case. */
  lemma HostBetween(a: string, b: string)
    ensures IsMavenCentral(a + "repo1.maven.org" + b)
  {
    var h := "repo1.maven.org";
    var u := a + h + b;
    var l := Lower(u);
    forall k | 0 <= k < |h|
      ensures l[|a| + k] == h[k]
    {
      assert u[|a| + k] == h[k];
    }
    assert l[|a|..|a| + |h|] == h;
    assert OccursAt(l, h, |a|);
  }

  // ---------------------------------------------------------------------
  // Declared repositories

  /** What reading `repo.credentials` gives: the configured username and
      password, each possibly null, or an exception. */
  datatype CredentialsRead = Configured(username: Option<string>, password: Option<string>) | ReadFailure

  /** A repository declared on the project: a Maven repository with its
      name, URL and credentials, or any other kind (flat-dir, Ivy). */
  datatype DeclaredRepository =
    | MavenRepository(name: string, url: string, credentials: CredentialsRead)
    | OtherRepository(name: string)

  /** Username and password are both configured; a failed read counts as none. */
  predicate HasCredentials(c: CredentialsRead) {
    c.Configured? && c.username.Some? && c.password.Some?
  }

  /** The stored URL: the declared one minus one trailing `/`. */
  function StoredUrl(url: string): string {
    RemoveSuffix(url, "/")
  }

  /** The two property names, both or neither. */
  predicate PropertiesFor(r: RepositoryInfo, credentialed: bool) {
    if credentialed then r.usernameProperty == Some(r.name + ".username") && r.passwordProperty == Some(r.name + ".password")
    else r.usernameProperty.None? && r.passwordProperty.None?
  }

  function StoredInfo(name: string, url: string, credentialed: bool): (r: RepositoryInfo)
    ensures r.name == name && r.url == url && !r.isMavenCentral && PropertiesFor(r, credentialed)
  {
    RepositoryInfo(name, url,
      if credentialed then Some(name + ".username") else None,
      if credentialed then Some(name + ".password") else None,
      false)
  }

  /** Some stored repository has URL `u`. */
  predicate HasUrl(m: OrderedMap<string, RepositoryInfo>, u: string) {
    exists i :: 0 <= i < |m| && m[i].1.url == u
  }

  /** The shape every registry the collector builds keeps: keys are unique
      and equal the stored name, no URL is stored twice, nothing stored is
      flagged as Maven Central, and the credential properties come both or
      not at all. */
  predicate Registry(m: OrderedMap<string, RepositoryInfo>) {
    && UniqueKeys(m)
    && (forall i :: 0 <= i < |m| ==> m[i].0 == m[i].1.name)
    && (forall i :: 0 <= i < |m| ==> !m[i].1.isMavenCentral)
    && (forall i :: 0 <= i < |m| ==> PropertiesFor(m[i].1, m[i].1.usernameProperty.Some?))
    && (forall i, j :: 0 <= i < j < |m| ==> m[i].1.url != m[j].1.url)
  }

  /** The name a declared repository is stored under: its own, or
      `maven-<current size>` when it is empty. */
  function NameFor(m: OrderedMap<string, RepositoryInfo>, declared: string): (r: string)
    ensures declared != "" ==> r == declared
    ensures declared == "" ==> r == "maven-" + NatToString(|m|)
  {
    if declared == "" then "maven-" + NatToString(|m|) else declared
  }

  /** A declared repository the collector keeps: a Maven repository whose
      stored URL is neither Central nor already stored. */
  predicate Retained(m: OrderedMap<string, RepositoryInfo>, d: DeclaredRepository) {
    d.MavenRepository? && !IsMavenCentral(StoredUrl(d.url)) && !HasUrl(m, StoredUrl(d.url))
  }

  /** Storing a well-formed entry under a new URL keeps the registry shape. */
  lemma PutKeepsRegistry(m: OrderedMap<string, RepositoryInfo>, name: string, info: RepositoryInfo)
    requires Registry(m)
    requires info.name == name && !info.isMavenCentral
    requires PropertiesFor(info, info.usernameProperty.Some?)
    requires !HasUrl(m, info.url)
    ensures Registry(Put(m, name, info))
    ensures HasUrl(Put(m, name, info), info.url)
    ensures forall i :: 0 <= i < |m| && m[i].0 != name ==> m[i] in Put(m, name, info)
  {
    var r := Put(m, name, info);
    assert r[KeyIndex(r, name)] == (name, info);
    forall i, j | 0 <= i < j < |r|
      ensures r[i].1.url != r[j].1.url
    {
      if r[i] != (name, info) && r[j] != (name, info) {
        assert r[i] == m[i] && r[j] == m[j];
      }
    }
    forall i | 0 <= i < |m| && m[i].0 != name
      ensures m[i] in r
    {
      assert r[i] == m[i];
    }
  }

  /** One iteration of `collectAllRepositories`. */
  function Step(m: OrderedMap<string, RepositoryInfo>, d: DeclaredRepository): (r: OrderedMap<string, RepositoryInfo>)
    requires Registry(m)
    ensures Registry(r)
    ensures !Retained(m, d) ==> r == m
    ensures Retained(m, d) ==>
      Lookup(r, NameFor(m, d.name)) == Some(StoredInfo(NameFor(m, d.name), StoredUrl(d.url), HasCredentials(d.credentials)))
    ensures d.MavenRepository? && !IsMavenCentral(StoredUrl(d.url)) ==> HasUrl(r, StoredUrl(d.url))
    ensures forall i :: 0 <= i < |m| && m[i].0 != NameFor(m, d.name) ==> m[i] in r
  {
    if !Retained(m, d) then m
    else
      var name := NameFor(m, d.name);
      var info := StoredInfo(name, StoredUrl(d.url), HasCredentials(d.credentials));
      PutKeepsRegistry(m, name, info);
      Put(m, name, info)
  }

  /** `collectAllRepositories` over the declared repositories. */
  function CollectAllRepositories(declared: seq<DeclaredRepository>): (r: OrderedMap<string, RepositoryInfo>)
    ensures Registry(r)
    decreases |declared|
  {
    if declared == [] then []
    else Step(CollectAllRepositories(declared[..|declared| - 1]), declared[|declared| - 1])
  }

  /** Every stored entry comes from one of the declared repositories. */
  lemma {:induction false} CollectProvenance(declared: seq<DeclaredRepository>, i: nat)
    requires i < |CollectAllRepositories(declared)|
    ensures exists j :: 0 <= j < |declared| && Provides(declared[j], CollectAllRepositories(declared)[i].1)
    decreases |declared|
  {
    var r := CollectAllRepositories(declared);
    var prefix := declared[..|declared| - 1];
    var last := declared[|declared| - 1];
    var m := CollectAllRepositories(prefix);
    assert r == Step(m, last);
    StepOrigin(m, last, i);
    if i < |m| && r[i] == m[i] {
      CollectProvenance(prefix, i);
      var j :| 0 <= j < |prefix| && Provides(prefix[j], m[i].1);
      assert declared[j] == prefix[j];
    } else {
      StoredProvides(m, last);
      assert Provides(declared[|declared| - 1], r[i].1);
    }
  }

  /** An entry after one step is the new one or was there before. */
  lemma StepOrigin(m: OrderedMap<string, RepositoryInfo>, d: DeclaredRepository, i: nat)
    requires Registry(m) && i < |Step(m, d)|
    ensures || (Retained(m, d) && Step(m, d)[i].1 == StoredInfo(NameFor(m, d.name), StoredUrl(d.url), HasCredentials(d.credentials)))
            || (i < |m| && Step(m, d)[i] == m[i])
  {
    if Retained(m, d) {
      StepStores(m, d);
    }
  }

  lemma StoredProvides(m: OrderedMap<string, RepositoryInfo>, d: DeclaredRepository)
    requires Retained(m, d)
    ensures Provides(d, StoredInfo(NameFor(m, d.name), StoredUrl(d.url), HasCredentials(d.credentials)))
  {
  }

  /** Stored entry `info` comes from declared repository `d`: a Maven
      repository with the same URL minus one trailing `/`, which is not
      Maven Central, stored under its
      own name unless that was empty, with credential properties exactly
      when it had both username and password. */
  predicate Provides(d: DeclaredRepository, info: RepositoryInfo) {
    && d.MavenRepository?
    && info.url == StoredUrl(d.url) && !IsMavenCentral(info.url)
    && (d.name != "" ==> info.name == d.name)
    && PropertiesFor(info, HasCredentials(d.credentials))
  }

  // ---------------------------------------------------------------------
  // Collection scenarios

  /** Collecting two declarations is two steps from the empty registry. */
  lemma CollectPair(d1: DeclaredRepository, d2: DeclaredRepository)
    ensures CollectAllRepositories([d1, d2]) == Step(Step([], d1), d2)
  {
    var ds := [d1, d2];
    assert ds[..1] == [d1];
    assert [d1][..0] == [];
    assert CollectAllRepositories([]) == [];
    assert CollectAllRepositories([d1]) == Step([], d1);
  }

  /** The first Maven repository outside Central is always stored. */
  lemma StepFromEmpty(d: DeclaredRepository)
    requires d.MavenRepository? && !IsMavenCentral(StoredUrl(d.url))
    ensures Step([], d) == [(NameFor([], d.name), StoredInfo(NameFor([], d.name), StoredUrl(d.url), HasCredentials(d.credentials)))]
  {
    assert Retained([], d);
  }

  /** A retained repository is put under its name. */
  lemma StepStores(m: OrderedMap<string, RepositoryInfo>, d: DeclaredRepository)
    requires Registry(m) && Retained(m, d)
    ensures Step(m, d) == Put(m, NameFor(m, d.name), StoredInfo(NameFor(m, d.name), StoredUrl(d.url), HasCredentials(d.credentials)))
  {
  }

  /** A retained repository whose name is the one stored key replaces that
      entry. */
  lemma ReplaceSingle(m: OrderedMap<string, RepositoryInfo>, d: DeclaredRepository)
    requires Registry(m) && |m| == 1 && Retained(m, d) && NameFor(m, d.name) == m[0].0
    ensures Step(m, d) == [(m[0].0, StoredInfo(m[0].0, StoredUrl(d.url), HasCredentials(d.credentials)))]
  {
    assert m == [(m[0].0, m[0].1)];
    StepStores(m, d);
    PutOverSingle(m[0].0, m[0].1, StoredInfo(m[0].0, StoredUrl(d.url), HasCredentials(d.credentials)));
  }

  /** Putting the key of a one-entry map replaces its value. */
  lemma PutOverSingle<V>(k: string, v: V, w: V)
    ensures Put([(k, v)], k, w) == [(k, w)]
  {
    var r := Put([(k, v)], k, w);
    assert Keys([(k, v)])[0] == k;
    assert r[0] == (k, w);
  }

  /** A one-entry registry holds only its entry's URL. */
  lemma SingleHasUrl(k: string, info: RepositoryInfo, u: string)
    ensures HasUrl([(k, info)], u) <==> info.url == u
  {
    if info.url == u {
      assert [(k, info)][0].1.url == u;
    }
  }

  /** Of two repositories with the same stored URL the first is kept,
      under its own name, whatever the second is called. */
  lemma DuplicateUrlKeepsFirst(n1: string, n2: string, url: string, c1: CredentialsRead, c2: CredentialsRead)
    requires !IsMavenCentral(StoredUrl(url))
    ensures CollectAllRepositories([MavenRepository(n1, url, c1), MavenRepository(n2, url, c2)]) ==
      [(NameFor([], n1), StoredInfo(NameFor([], n1), StoredUrl(url), HasCredentials(c1)))]
  {
    var d1, d2 := MavenRepository(n1, url, c1), MavenRepository(n2, url, c2);
    CollectPair(d1, d2);
    StepFromEmpty(d1);
    var name := NameFor([], n1);
    SingleHasUrl(name, StoredInfo(name, StoredUrl(url), HasCredentials(c1)), StoredUrl(url));
  }

  /** URLs are compared exactly: the same address spelt with different
      letter case is stored twice. */
  lemma DuplicateUrlIsCaseSensitive(n1: string, n2: string, u1: string, u2: string)
    requires n1 != "" && n2 != "" && n1 != n2
    requires Lower(u1) == Lower(u2) && StoredUrl(u1) != StoredUrl(u2)
    requires !IsMavenCentral(StoredUrl(u1))
    ensures |CollectAllRepositories([MavenRepository(n1, u1, ReadFailure), MavenRepository(n2, u2, ReadFailure)])| == 2
  {
    var d1, d2 := MavenRepository(n1, u1, ReadFailure), MavenRepository(n2, u2, ReadFailure);
    var m := [(n1, StoredInfo(n1, StoredUrl(u1), false))];
    assert Step([], d1) == m by {
      StepFromEmpty(d1);
    }
    assert |Step(m, d2)| == 2 by {
      LowerStoredUrl(u1, u2);
      MavenCentralIgnoresCase(StoredUrl(u1), StoredUrl(u2));
      SingleHasUrl(n1, m[0].1, StoredUrl(u2));
      assert Retained(m, d2);
      assert n2 !in Keys(m);
    }
    CollectPair(d1, d2);
  }

  /** Removing the trailing slash commutes with ignoring case. */
  lemma LowerStoredUrl(a: string, b: string)
    requires Lower(a) == Lower(b)
    ensures Lower(StoredUrl(a)) == Lower(StoredUrl(b))
  {
    assert |a| == |b|;
    assert EndsWith(a, "/") <==> EndsWith(b, "/") by {
      if a != [] {
        assert AsciiLower(a[|a| - 1]) == AsciiLower(b[|b| - 1]);
      }
    }
    if EndsWith(a, "/") {
      LowerDropLast(a);
      LowerDropLast(b);
    }
  }

  /** A later repository stored under an existing name replaces the
      earlier entry: the registry is keyed by name. */
  lemma SameNameReplaces(name: string, u1: string, u2: string, c1: CredentialsRead, c2: CredentialsRead)
    requires name != ""
    requires StoredUrl(u1) != StoredUrl(u2)
    requires !IsMavenCentral(StoredUrl(u1)) && !IsMavenCentral(StoredUrl(u2))
    ensures CollectAllRepositories([MavenRepository(name, u1, c1), MavenRepository(name, u2, c2)]) ==
      [(name, StoredInfo(name, StoredUrl(u2), HasCredentials(c2)))]
  {
    var d1, d2 := MavenRepository(name, u1, c1), MavenRepository(name, u2, c2);
    var m := [(name, StoredInfo(name, StoredUrl(u1), HasCredentials(c1)))];
    assert Step([], d1) == m by {
      StepFromEmpty(d1);
    }
    assert Step(m, d2) == [(name, StoredInfo(name, StoredUrl(u2), HasCredentials(c2)))] by {
      SingleHasUrl(name, m[0].1, StoredUrl(u2));
      ReplaceSingle(m, d2);
    }
    CollectPair(d1, d2);
  }

  lemma UnnamedSecondName(m: OrderedMap<string, RepositoryInfo>)
    requires |m| == 1
    ensures NameFor(m, "") == "maven-1"
  {
    assert NatToString(1) == "1";
  }

  /** An unnamed repository takes its number from the registry's size, so
      it can take over the entry of a repository explicitly named
      `maven-<size>`. */
  lemma UnnamedCanReplaceNamed(u1: string, u2: string)
    requires StoredUrl(u1) != StoredUrl(u2)
    requires !IsMavenCentral(StoredUrl(u1)) && !IsMavenCentral(StoredUrl(u2))
    ensures CollectAllRepositories([MavenRepository("maven-1", u1, ReadFailure), MavenRepository("", u2, ReadFailure)]) ==
      [("maven-1", StoredInfo("maven-1", StoredUrl(u2), false))]
  {
    var name := "maven-1";
    var d1, d2 := MavenRepository(name, u1, ReadFailure), MavenRepository("", u2, ReadFailure);
    var m := [(name, StoredInfo(name, StoredUrl(u1), false))];
    assert Step([], d1) == m by {
      StepFromEmpty(d1);
    }
    assert Step(m, d2) == [(name, StoredInfo(name, StoredUrl(u2), false))] by {
      SingleHasUrl(name, m[0].1, StoredUrl(u2));
      UnnamedSecondName(m);
      ReplaceSingle(m, d2);
    }
    CollectPair(d1, d2);
  }

  /** Declared Maven repositories all carry distinct, non-empty names. */
  predicate DistinctNames(declared: seq<DeclaredRepository>) {
    && (forall j :: 0 <= j < |declared| && declared[j].MavenRepository? ==> declared[j].name != "")
    && (forall i, j :: 0 <= i < j < |declared| && declared[i].MavenRepository? && declared[j].MavenRepository? ==>
          declared[i].name != declared[j].name)
  }

  /** `u` is the stored URL of a declared, non-Central Maven repository. */
  predicate DeclaresUrl(declared: seq<DeclaredRepository>, u: string) {
    exists j :: 0 <= j < |declared| && declared[j].MavenRepository? && StoredUrl(declared[j].url) == u && !IsMavenCentral(u)
  }

  /** Every stored URL is the stored URL of a declared, non-Central Maven
      repository. */
  lemma CollectUrlsDeclared(declared: seq<DeclaredRepository>, u: string)
    requires HasUrl(CollectAllRepositories(declared), u)
    ensures DeclaresUrl(declared, u)
  {
    var r := CollectAllRepositories(declared);
    var i :| 0 <= i < |r| && r[i].1.url == u;
    CollectProvenance(declared, i);
    var j :| 0 <= j < |declared| && Provides(declared[j], r[i].1);
    assert declared[j].MavenRepository? && StoredUrl(declared[j].url) == u && !IsMavenCentral(u);
  }

  lemma DistinctNamesPrefix(declared: seq<DeclaredRepository>)
    requires DistinctNames(declared) && declared != []
    ensures DistinctNames(declared[..|declared| - 1])
  {
  }

  /** When no two declared repositories share a name, no entry is ever
      replaced, so every declared non-Central URL ends up stored. */
  lemma {:induction false} CollectKeepsDeclaredUrl(declared: seq<DeclaredRepository>, j: nat)
    requires DistinctNames(declared)
    requires j < |declared| && declared[j].MavenRepository? && !IsMavenCentral(StoredUrl(declared[j].url))
    ensures HasUrl(CollectAllRepositories(declared), StoredUrl(declared[j].url))
    decreases |declared|
  {
    var u := StoredUrl(declared[j].url);
    var prefix := declared[..|declared| - 1];
    var d := declared[|declared| - 1];
    var m := CollectAllRepositories(prefix);
    if j < |declared| - 1 {
      assert prefix[j] == declared[j];
      DistinctNamesPrefix(declared);
      CollectKeepsDeclaredUrl(prefix, j);
      var k :| 0 <= k < |m| && m[k].1.url == u;
      if d.MavenRepository? {
        CollectProvenance(prefix, k);
        var p :| 0 <= p < |prefix| && Provides(prefix[p], m[k].1);
        assert prefix[p] == declared[p];
        NameNotReplaced(declared, m, k, p);
      }
      assert m[k] in CollectAllRepositories(declared);
    }
  }

  lemma NameNotReplaced(declared: seq<DeclaredRepository>, m: OrderedMap<string, RepositoryInfo>, k: nat, p: nat)
    requires DistinctNames(declared) && |declared| > 0 && declared[|declared| - 1].MavenRepository?
    requires Registry(m) && k < |m| && p < |declared| - 1
    requires Provides(declared[p], m[k].1)
    ensures m[k].0 != NameFor(m, declared[|declared| - 1].name)
  {
    var d := declared[|declared| - 1];
    assert declared[p].name != "" && declared[p].name != d.name;
    assert m[k].0 == m[k].1.name == declared[p].name;
  }

  /** With distinct names the registry holds exactly the stored URLs of the
      declared non-Central Maven repositories. */
  lemma CollectUrlsExactly(declared: seq<DeclaredRepository>, u: string)
    requires DistinctNames(declared)
    ensures HasUrl(CollectAllRepositories(declared), u) <==> DeclaresUrl(declared, u)
  {
    if HasUrl(CollectAllRepositories(declared), u) {
      CollectUrlsDeclared(declared, u);
    }
    if DeclaresUrl(declared, u) {
      var j :| 0 <= j < |declared| && declared[j].MavenRepository? && StoredUrl(declared[j].url) == u && !IsMavenCentral(u);
      CollectKeepsDeclaredUrl(declared, j);
    }
  }

  // ---------------------------------------------------------------------
  // detectAndApplyCredentials

  /** The scheme of a URI: the text before the first `:`, if any. */
  function Scheme(url: string): (r: Option<string>)
    ensures r.Some? ==> ':' !in r.value && StartsWith(url, r.value + ":")
    ensures r.None? <==> ':' !in url
  {
    var i := IndexOf(url, ':');
    if i < 0 then None
    else
      assert url[..i + 1] == url[..i] + ":";
      Some(url[..i])
  }

  /** Project properties and environment variables, by name. */
  type Properties = map<string, string>

  /** `findProperty(key) ?: System.getenv(variable)`. */
  function PropertyOrEnv(properties: Properties, key: string, env: Properties, variable: string): (r: Option<string>)
    ensures key in properties ==> r == Some(properties[key])
    ensures key !in properties ==> r == Get(env, variable)
  {
    if key in properties then Some(properties[key]) else Get(env, variable)
  }

  /** The credentials `detectAndApplyCredentials` sets on one Maven
      repository: only for `http`/`https` URLs, each half from the
      `<name>.username`/`<name>.password` property or else from the
      `<NAME>_USERNAME`/`<NAME>_PASSWORD` variable (upper-cased, nothing
      else replaced), and only when both halves are found. */
  function DetectCredentials(name: string, url: string, properties: Properties, env: Properties): (r: Option<(string, string)>)
    ensures r.Some? ==> Scheme(url) == Some("http") || Scheme(url) == Some("https")
    ensures r.Some? <==>
      && (Scheme(url) == Some("http") || Scheme(url) == Some("https"))
      && (name + ".username" in properties || Upper(name) + "_USERNAME" in env)
      && (name + ".password" in properties || Upper(name) + "_PASSWORD" in env)
  {
    if Scheme(url) == Some("http") || Scheme(url) == Some("https") then
      var user := PropertyOrEnv(properties, name + ".username", env, Upper(name) + "_USERNAME");
      var pass := PropertyOrEnv(properties, name + ".password", env, Upper(name) + "_PASSWORD");
      if user.Some? && pass.Some? then Some((user.value, pass.value)) else None
    else None
  }

  /** Where each half of detected credentials comes from: a project
      property wins over the environment variable, which is used only
      when the property is not set. */
  lemma PropertyWinsOverEnvironment(name: string, url: string, properties: Properties, env: Properties)
    requires DetectCredentials(name, url, properties, env).Some?
    ensures name + ".username" in properties ==>
      DetectCredentials(name, url, properties, env).value.0 == properties[name + ".username"]
    ensures name + ".password" in properties ==>
      DetectCredentials(name, url, properties, env).value.1 == properties[name + ".password"]
    ensures name + ".username" !in properties ==>
      DetectCredentials(name, url, properties, env).value.0 == env[Upper(name) + "_USERNAME"]
    ensures name + ".password" !in properties ==>
      DetectCredentials(name, url, properties, env).value.1 == env[Upper(name) + "_PASSWORD"]
  {
  }

  /** `detectAndApplyCredentials` over the declared repositories. */
  function ApplyCredentials(declared: seq<DeclaredRepository>, properties: Properties, env: Properties): (r: seq<DeclaredRepository>)
    ensures |r| == |declared|
    ensures forall i :: 0 <= i < |declared| ==>
      match declared[i]
      case OtherRepository(_) => r[i] == declared[i]
      case MavenRepository(n, u, c) =>
        var found := DetectCredentials(n, u, properties, env);
        r[i] == if found.Some? then MavenRepository(n, u, Configured(Some(found.value.0), Some(found.value.1))) else declared[i]
  {
    if declared == [] then []
    else
      var d := declared[0];
      var d' := match d
        case OtherRepository(_) => d
        case MavenRepository(n, u, c) =>
          var found := DetectCredentials(n, u, properties, env);
          if found.Some? then MavenRepository(n, u, Configured(Some(found.value.0), Some(found.value.1))) else d;
      [d'] + ApplyCredentials(declared[1..], properties, env)
  }

  /** After credential detection every Maven repository with detected
      credentials has both halves configured, and names, URLs and the
      order are untouched, so collection sees the same repositories. */
  lemma ApplyThenCollect(declared: seq<DeclaredRepository>, properties: Properties, env: Properties, i: nat)
    requires i < |declared| && declared[i].MavenRepository?
    requires DetectCredentials(declared[i].name, declared[i].url, properties, env).Some?
    ensures var applied := ApplyCredentials(declared, properties, env);
      && HasCredentials(applied[i].credentials)
      && applied[i].name == declared[i].name && applied[i].url == declared[i].url
  {
  }
}
