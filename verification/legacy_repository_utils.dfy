/** `RepositoryUtils` of the older plugin (`net.cubizor.runtimedependency`):
    the same Maven Central test, a Maven-local test, and a collector that
    names unnamed local repositories `MavenLocal`, numbers the others with
    a counter of retained repositories, and never records credential
    properties for `file:` URLs. */
module LegacyRepositoryUtils {
  import opened Common
  import opened Text
  import opened Models
  import opened RepositoryUtils

  /** `isMavenLocal`: a `file:` URL (in any letter case) or one pointing
      into a `.m2/repository` directory, tested on the URL with one
      trailing `/` dropped and lower-cased. Dropping the `/` changes
      neither test, so a URL is local exactly when its lower-cased form
      starts with `file:` or mentions `/.m2/repository`. */
  predicate IsMavenLocal(url: string): (r: bool)
    ensures r <==> StartsWith(Lower(url), "file:") || Contains(Lower(url), LocalRepositoryPath)
  {
    var n := NormalizedUrl(url);
    FileSlashes(n);
    NormalizingKeepsLocalTests(url);
    StartsWith(n, "file://") || StartsWith(n, "file:") || Contains(n, LocalRepositoryPath)
  }

  const LocalRepositoryPath := "/.m2/repository"

  /** The trailing-slash removal changes neither the `file:` test nor the
      `.m2` test. */
  lemma NormalizingKeepsLocalTests(url: string)
    ensures StartsWith(NormalizedUrl(url), "file:") <==> StartsWith(Lower(url), "file:")
    ensures Contains(NormalizedUrl(url), LocalRepositoryPath) <==> Contains(Lower(url), LocalRepositoryPath)
  {
    var n, l := NormalizedUrl(url), Lower(url);
    NormalizedPrefix(url);
    if EndsWith(url, "/") {
      assert l[|l| - 1] == '/';
      LowerDropLast(url);
      assert RemoveSuffix(url, "/") == url[..|url| - 1];
      assert n == l[..|l| - 1];
      ContainsWithoutSlash(l, LocalRepositoryPath);
      if StartsWith(l, "file:") {
        assert |l| > 5 by {
          assert l[4] == ':';
        }
        assert n[..5] == l[..5];
      }
    }
  }

  /** `file://` is a special case of `file:`. */
  lemma FileSlashes(s: string)
    ensures StartsWith(s, "file://") ==> StartsWith(s, "file:")
  {
    if StartsWith(s, "file://") {
      assert s[..5] == s[..7][..5];
    }
  }

  /** The normalised URL is a prefix of the lower-cased one, so what it
      starts with or contains, the lower-cased URL does too. */
  lemma NormalizedPrefix(url: string)
    ensures var n, l := NormalizedUrl(url), Lower(url);
      && |n| <= |l| && n == l[..|n|]
      && (StartsWith(n, "file:") ==> StartsWith(l, "file:"))
      && (Contains(n, LocalRepositoryPath) ==> Contains(l, LocalRepositoryPath))
  {
    var n, l := NormalizedUrl(url), Lower(url);
    if EndsWith(url, "/") {
      LowerDropLast(url);
    }
    assert n == l[..|n|];
    if Contains(n, LocalRepositoryPath) {
      var i :| 0 <= i <= |n| && OccursAt(n, LocalRepositoryPath, i);
      assert l[i..i + 15] == n[i..i + 15];
      assert OccursAt(l, LocalRepositoryPath, i);
    }
  }

  /** The collector's own, case-sensitive test for a file URL; the
      `file://` test is subsumed by the `file:` one. */
  predicate IsFileProtocol(url: string): (r: bool)
    ensures r <==> StartsWith(url, "file:")
  {
    FileSlashes(url);
    StartsWith(url, "file://") || StartsWith(url, "file:")
  }

  /** Every URL the collector treats as a file URL is also Maven-local. */
  lemma FileProtocolIsLocal(url: string)
    requires IsFileProtocol(url)
    ensures IsMavenLocal(url)
  {
    assert Lower(url)[..5] == Lower(url[..5]);
  }

  /** The two tests disagree on letter case: `FILE:` is Maven-local but not
      a file URL, so such a repository may keep credential properties. */
  lemma UpperCaseFileScheme()
    ensures IsMavenLocal("FILE:/repo") && !IsFileProtocol("FILE:/repo")
  {
    var u := "FILE:/repo";
    assert !EndsWith(u, "/") by { assert u[|u| - 1] == 'o'; }
    var n := NormalizedUrl(u);
    assert n == Lower(u);
    assert n[0] == 'f' && n[1] == 'i' && n[2] == 'l' && n[3] == 'e' && n[4] == ':';
    assert n[..5] == "file:";
    assert u[..5] != "file:" by { assert u[0] == 'F'; }
    assert u[..7] != "file://" by { assert u[0] == 'F'; }
  }

  // ---------------------------------------------------------------------
  // collectAllRepositories

  /** The map under construction and the counter of retained repositories. */
  datatype Collector = Collector(repos: OrderedMap<string, LegacyRepositoryInfo>, nextIndex: nat)

  predicate LegacyPropertiesFor(r: LegacyRepositoryInfo, credentialed: bool) {
    if credentialed then r.usernameProperty == Some(r.name + ".username") && r.passwordProperty == Some(r.name + ".password")
    else r.usernameProperty.None? && r.passwordProperty.None?
  }

  predicate LegacyHasUrl(m: OrderedMap<string, LegacyRepositoryInfo>, u: string) {
    exists i :: 0 <= i < |m| && m[i].1.url == u
  }

  /** Unique keys equal to the stored names, no URL twice, nothing flagged
      Central, credential properties both or neither. */
  predicate LegacyRegistry(m: OrderedMap<string, LegacyRepositoryInfo>) {
    && UniqueKeys(m)
    && (forall i :: 0 <= i < |m| ==> m[i].0 == m[i].1.name)
    && (forall i :: 0 <= i < |m| ==> !m[i].1.isMavenCentral)
    && (forall i :: 0 <= i < |m| ==> LegacyPropertiesFor(m[i].1, m[i].1.usernameProperty.Some?))
    && (forall i, j :: 0 <= i < j < |m| ==> m[i].1.url != m[j].1.url)
  }

  predicate LegacyRetained(m: OrderedMap<string, LegacyRepositoryInfo>, d: DeclaredRepository) {
    d.MavenRepository? && !IsMavenCentral(StoredUrl(d.url)) && !LegacyHasUrl(m, StoredUrl(d.url))
  }

  /** The name an unnamed repository gets: `MavenLocal` for a local URL,
      otherwise `maven-<number of repositories retained so far>`. */
  function LegacyNameFor(c: Collector, declared: string, url: string): (r: string)
    ensures declared != "" ==> r == declared
    ensures declared == "" && IsMavenLocal(url) ==> r == "MavenLocal"
    ensures declared == "" && !IsMavenLocal(url) ==> r == "maven-" + NatToString(c.nextIndex)
  {
    if declared != "" then declared
    else if IsMavenLocal(url) then "MavenLocal"
    else "maven-" + NatToString(c.nextIndex)
  }

  /** Credential properties are recorded only for non-file URLs whose
      username and password are both configured. */
  predicate LegacyCredentialed(d: DeclaredRepository) {
    d.MavenRepository? && !IsFileProtocol(StoredUrl(d.url)) && HasCredentials(d.credentials)
  }

  function LegacyStoredInfo(name: string, url: string, credentialed: bool): (r: LegacyRepositoryInfo)
    ensures r.name == name && r.url == url && !r.isMavenCentral && LegacyPropertiesFor(r, credentialed)
  {
    LegacyRepositoryInfo(name, url,
      if credentialed then Some(name + ".username") else None,
      if credentialed then Some(name + ".password") else None,
      false, IsMavenLocal(url))
  }

  lemma LegacyPutKeepsRegistry(m: OrderedMap<string, LegacyRepositoryInfo>, name: string, info: LegacyRepositoryInfo)
    requires LegacyRegistry(m)
    requires info.name == name && !info.isMavenCentral
    requires LegacyPropertiesFor(info, info.usernameProperty.Some?)
    requires !LegacyHasUrl(m, info.url)
    ensures LegacyRegistry(Put(m, name, info))
    ensures forall i :: 0 <= i < |m| && m[i].0 != name ==> m[i] in Put(m, name, info)
  {
    var r := Put(m, name, info);
    assert r[KeyIndex(r, name)] == (name, info);
    forall i, j | 0 <= i < j < |r|
      ensures r[i].1.url != r[j].1.url
    {
      if r[i] != (name, info) && r[j] != (name, info) {
        assert r[i] == m[i] && r[j] == m[j];
      }
    }
    forall i | 0 <= i < |m| && m[i].0 != name
      ensures m[i] in r
    {
      assert r[i] == m[i];
    }
  }

  /** One iteration of the older `collectAllRepositories`: the counter
      advances exactly when a repository is retained. */
  function LegacyStep(c: Collector, d: DeclaredRepository): (r: Collector)
    requires LegacyRegistry(c.repos)
    ensures LegacyRegistry(r.repos)
    ensures !LegacyRetained(c.repos, d) ==> r == c
    ensures LegacyRetained(c.repos, d) ==> r.nextIndex == c.nextIndex + 1
    ensures LegacyRetained(c.repos, d) ==>
      var name := LegacyNameFor(c, d.name, StoredUrl(d.url));
      Lookup(r.repos, name) == Some(LegacyStoredInfo(name, StoredUrl(d.url), LegacyCredentialed(d)))
  {
    if !LegacyRetained(c.repos, d) then c
    else
      var name := LegacyNameFor(c, d.name, StoredUrl(d.url));
      var info := LegacyStoredInfo(name, StoredUrl(d.url), LegacyCredentialed(d));
      LegacyPutKeepsRegistry(c.repos, name, info);
      Collector(Put(c.repos, name, info), c.nextIndex + 1)
  }

  /** The older `collectAllRepositories`, with its counter; the map never
      has more entries than repositories retained. */
  function LegacyCollect(declared: seq<DeclaredRepository>): (r: Collector)
    ensures LegacyRegistry(r.repos)
    ensures |r.repos| <= r.nextIndex <= |declared|
    decreases |declared|
  {
    if declared == [] then Collector([], 0)
    else LegacyStep(LegacyCollect(declared[..|declared| - 1]), declared[|declared| - 1])
  }

  /** The older `collectAllRepositories`: a well-formed registry of at
      most one entry per declared repository, each entry coming from one
      of them. */
  function LegacyCollectAllRepositories(declared: seq<DeclaredRepository>): (r: OrderedMap<string, LegacyRepositoryInfo>)
    ensures LegacyRegistry(r)
    ensures |r| <= |declared|
    ensures forall i :: 0 <= i < |r| ==> LegacyProvidedBy(declared, r[i].1)
  {
    forall i | 0 <= i < |LegacyCollect(declared).repos|
      ensures LegacyProvidedBy(declared, LegacyCollect(declared).repos[i].1)
    {
      LegacyCollectProvenance(declared, i);
    }
    LegacyCollect(declared).repos
  }

  /** Stored entry `info` comes from declared repository `d`: same stored
      URL, not Central, its own name unless empty, the local flag computed
      from the URL, and credential properties exactly for non-file URLs
      with both username and password. */
  predicate LegacyProvides(d: DeclaredRepository, info: LegacyRepositoryInfo) {
    && d.MavenRepository?
    && info.url == StoredUrl(d.url) && !IsMavenCentral(info.url)
    && (d.name != "" ==> info.name == d.name)
    && info.isMavenLocal == IsMavenLocal(info.url)
    && LegacyPropertiesFor(info, LegacyCredentialed(d))
  }

  /** Every stored entry comes from a declared repository; in particular
      its local flag matches its URL and a `file:` URL has no credential
      properties. */
  lemma {:induction false} LegacyCollectProvenance(declared: seq<DeclaredRepository>, i: nat)
    requires i < |LegacyCollect(declared).repos|
    ensures LegacyProvidedBy(declared, LegacyCollect(declared).repos[i].1)
    decreases |declared|
  {
    var r := LegacyCollect(declared).repos;
    var prefix := declared[..|declared| - 1];
    var last := declared[|declared| - 1];
    var c := LegacyCollect(prefix);
    assert r == LegacyStep(c, last).repos;
    LegacyStepOrigin(c, last, i);
    if r[i] in c.repos {
      var k :| 0 <= k < |c.repos| && c.repos[k] == r[i];
      LegacyCollectProvenance(prefix, k);
      ProvidedByPrefix(declared, r[i].1);
    } else {
      assert LegacyProvides(declared[|declared| - 1], r[i].1);
    }
  }

  /** Some declared repository provides `info`. */
  predicate LegacyProvidedBy(declared: seq<DeclaredRepository>, info: LegacyRepositoryInfo) {
    exists j :: 0 <= j < |declared| && LegacyProvides(declared[j], info)
  }

  lemma ProvidedByPrefix(declared: seq<DeclaredRepository>, info: LegacyRepositoryInfo)
    requires declared != [] && LegacyProvidedBy(declared[..|declared| - 1], info)
    ensures LegacyProvidedBy(declared, info)
  {
    var prefix := declared[..|declared| - 1];
    var j :| 0 <= j < |prefix| && LegacyProvides(prefix[j], info);
    assert declared[j] == prefix[j];
  }

  /** An entry after one step is the new one or was there before. */
  lemma LegacyStepOrigin(c: Collector, d: DeclaredRepository, i: nat)
    requires LegacyRegistry(c.repos) && i < |LegacyStep(c, d).repos|
    ensures var e := LegacyStep(c, d).repos[i];
      (LegacyRetained(c.repos, d) && LegacyProvides(d, e.1)) || e in c.repos
  {
    var r := LegacyStep(c, d).repos;
    if LegacyRetained(c.repos, d) && r[i].0 == LegacyNameFor(c, d.name, StoredUrl(d.url)) {
      LookupAt(r, i);
    } else if LegacyRetained(c.repos, d) {
      var m := c.repos;
      var k :| 0 <= k < |m| && m[k] == r[i];
    }
  }

  /** A stored repository with a `file:` URL never carries credential
      properties, and every stored local flag agrees with `isMavenLocal`. */
  lemma FileRepositoriesHaveNoCredentials(declared: seq<DeclaredRepository>, i: nat)
    requires i < |LegacyCollectAllRepositories(declared)|
    ensures var info := LegacyCollectAllRepositories(declared)[i].1;
      && info.isMavenLocal == IsMavenLocal(info.url)
      && (IsFileProtocol(info.url) ==> info.usernameProperty.None? && info.passwordProperty.None?)
  {
    LegacyCollectProvenance(declared, i);
  }

  // ---------------------------------------------------------------------
  // Scenarios

  lemma LegacyCollectPair(d1: DeclaredRepository, d2: DeclaredRepository)
    ensures LegacyCollect([d1, d2]) == LegacyStep(LegacyStep(Collector([], 0), d1), d2)
  {
    var ds := [d1, d2];
    assert ds[..1] == [d1];
    assert [d1][..0] == [];
    assert LegacyCollect([]) == Collector([], 0);
    assert LegacyCollect([d1]) == LegacyStep(Collector([], 0), d1);
  }

  /** Two unnamed local repositories at different paths are both called
      `MavenLocal`, so the second replaces the first. */
  lemma TwoLocalRepositoriesCollide(u1: string, u2: string)
    requires IsMavenLocal(StoredUrl(u1)) && IsMavenLocal(StoredUrl(u2))
    requires StoredUrl(u1) != StoredUrl(u2)
    requires !IsMavenCentral(StoredUrl(u1)) && !IsMavenCentral(StoredUrl(u2))
    ensures var c := LegacyCollect([MavenRepository("", u1, ReadFailure), MavenRepository("", u2, ReadFailure)]);
      c.repos == [("MavenLocal", LegacyStoredInfo("MavenLocal", StoredUrl(u2), false))] && c.nextIndex == 2
  {
    var d1, d2 := MavenRepository("", u1, ReadFailure), MavenRepository("", u2, ReadFailure);
    var i1 := LegacyStoredInfo("MavenLocal", StoredUrl(u1), false);
    assert LegacyNameFor(Collector([("MavenLocal", i1)], 1), "", StoredUrl(u2)) == "MavenLocal";
    LegacySameNameTwice(d1, d2, "MavenLocal");
  }

  /** Two uncredentialed repositories at different URLs that get the same
      name: the second replaces the first and both advance the counter. */
  lemma LegacySameNameTwice(d1: DeclaredRepository, d2: DeclaredRepository, name: string)
    requires d1.MavenRepository? && d2.MavenRepository?
    requires StoredUrl(d1.url) != StoredUrl(d2.url)
    requires !IsMavenCentral(StoredUrl(d1.url)) && !IsMavenCentral(StoredUrl(d2.url))
    requires !LegacyCredentialed(d1) && !LegacyCredentialed(d2)
    requires LegacyNameFor(Collector([], 0), d1.name, StoredUrl(d1.url)) == name
    requires LegacyNameFor(Collector([(name, LegacyStoredInfo(name, StoredUrl(d1.url), false))], 1), d2.name, StoredUrl(d2.url)) == name
    ensures LegacyCollect([d1, d2]) == Collector([(name, LegacyStoredInfo(name, StoredUrl(d2.url), false))], 2)
  {
    LegacyCollectPair(d1, d2);
    var i1 := LegacyStoredInfo(name, StoredUrl(d1.url), false);
    var i2 := LegacyStoredInfo(name, StoredUrl(d2.url), false);
    var c := LegacyStep(Collector([], 0), d1);
    assert c == Collector([(name, i1)], 1) by {
      assert LegacyRetained([], d1);
      LegacyStepStores(Collector([], 0), d1, name, false);
      PutSingle(name, i1, i2);
    }
    assert LegacyStep(c, d2) == Collector([(name, i2)], 2) by {
      assert LegacyRetained(c.repos, d2);
      LegacyStepStores(c, d2, name, false);
      PutSingle(name, i1, i2);
    }
  }

  /** A retained repository is stored under its name with its credential
      flag, and the counter advances. */
  lemma LegacyStepStores(c: Collector, d: DeclaredRepository, name: string, credentialed: bool)
    requires LegacyRegistry(c.repos) && LegacyRetained(c.repos, d)
    requires LegacyNameFor(c, d.name, StoredUrl(d.url)) == name && LegacyCredentialed(d) == credentialed
    ensures LegacyStep(c, d) == Collector(Put(c.repos, name, LegacyStoredInfo(name, StoredUrl(d.url), credentialed)), c.nextIndex + 1)
  {
  }

  /** Two repositories named `a` at different URLs: the second replaces
      the first, but the counter still advances twice. */
  lemma LegacyReplacementCounts(u1: string, u2: string)
    requires StoredUrl(u1) != StoredUrl(u2)
    requires !IsMavenCentral(StoredUrl(u1)) && !IsMavenCentral(StoredUrl(u2))
    ensures var c := LegacyCollect([MavenRepository("a", u1, ReadFailure), MavenRepository("a", u2, ReadFailure)]);
      c.nextIndex == 2 && |c.repos| == 1
  {
    var d1, d2 := MavenRepository("a", u1, ReadFailure), MavenRepository("a", u2, ReadFailure);
    LegacySameNameTwice(d1, d2, "a");
  }

  /** The number of an unnamed repository counts retained repositories,
      including one that replaced an entry of the same name, where the
      current plugin uses the map's size: after two repositories named `a`
      at different URLs, the older collector calls the next unnamed remote
      repository `maven-2`, the current one `maven-1`. */
  lemma NumberingCountsReplacedEntries(c: Collector, m: OrderedMap<string, RepositoryInfo>, url: string)
    requires c.nextIndex == 2 && |m| == 1
    requires !IsMavenLocal(url)
    ensures LegacyNameFor(c, "", url) == "maven-2"
    ensures NameFor(m, "") == "maven-1"
  {
    assert NatToString(2) == "2";
    UnnamedSecondName(m);
  }
}
