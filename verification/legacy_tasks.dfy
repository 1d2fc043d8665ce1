/** The older plugin's Paper loader generator (`Tasks.kt` of
    `net.cubizor.runtimedependency`): the same selection as the current
    one, except that a repository whose URL starts with `file:` never
    gets a credentials block. The download layout and the descriptor
    rewrite are the same code as in the current plugin and are modelled
    once, in `Tasks`. */
module LegacyTasks {
  import opened Common
  import opened Models
  import opened ManifestCodec
  import opened Tasks
  import opened RepositoryUtils
  import opened LegacyRepositoryUtils

  function LegacyUrl(r: LegacyRepositoryInfo): string {
    r.url
  }

  function LegacyCoordinateText(d: LegacyDependencyInfo): string {
    d.groupId + ":" + d.artifactId + ":" + d.version
  }

  /** `repos.filter { !it.value.isMavenCentral }.values`, in order. */
  function LegacyNonCentral(repos: seq<LegacyRepositoryInfo>): (r: seq<LegacyRepositoryInfo>)
    ensures forall x :: x in r <==> x in repos && !x.isMavenCentral
  {
    if repos == [] then []
    else if repos[0].isMavenCentral then LegacyNonCentral(repos[1..])
    else [repos[0]] + LegacyNonCentral(repos[1..])
  }

  predicate LegacyAnyCredentialProperty(r: LegacyRepositoryInfo) {
    r.usernameProperty.Some? || r.passwordProperty.Some?
  }

  /** The credentials block: both properties set and not a `file:` URL. */
  function LegacyAuthFor(r: LegacyRepositoryInfo): Option<LoaderAuth> {
    if !IsFileProtocol(r.url) && r.usernameProperty.Some? && r.passwordProperty.Some? then
      Some(LoaderAuth(EnvPrefix(r.name), r.usernameProperty.value, r.passwordProperty.value))
    else None
  }

  function LegacyPlanRepository(r: LegacyRepositoryInfo): LoaderRepository {
    LoaderRepository(r.name, r.url, LegacyAuthFor(r))
  }

  /** The older `generateLoaderClass`: non-Central repositories without
      repeated URLs, a `file:` repository never authenticated, the import
      decided before duplicates are dropped. */
  function LegacyPlanLoader(deps: seq<LegacyDependencyInfo>, repos: OrderedMap<string, LegacyRepositoryInfo>): (p: LoaderPlan)
    ensures p.authImport <==> exists i :: 0 <= i < |repos| && !repos[i].1.isMavenCentral && LegacyAnyCredentialProperty(repos[i].1)
    ensures |p.dependencies| == |deps|
    ensures forall i :: 0 <= i < |deps| ==> p.dependencies[i] == LegacyCoordinateText(deps[i])
    ensures forall i, j :: 0 <= i < j < |p.repositories| ==> p.repositories[i].url != p.repositories[j].url
    ensures forall k :: 0 <= k < |p.repositories| ==>
      exists r :: r in Values(repos) && !r.isMavenCentral && p.repositories[k] == LegacyPlanRepository(r)
    ensures forall k :: 0 <= k < |p.repositories| && IsFileProtocol(p.repositories[k].url) ==> p.repositories[k].auth.None?
    ensures forall k :: 0 <= k < |p.repositories| && p.repositories[k].auth.Some? ==> p.authImport
  {
    LegacyPlanRepositoriesFacts(repos);
    LoaderPlan(LegacyAuthImport(repos), seq(|deps|, i requires 0 <= i < |deps| => LegacyCoordinateText(deps[i])), LegacyPlanRepositories(repos))
  }

  /** The import is decided on the non-Central repositories, before
      repeated URLs are dropped. */
  function LegacyAuthImport(repos: OrderedMap<string, LegacyRepositoryInfo>): (b: bool)
    ensures b <==> exists i :: 0 <= i < |repos| && !repos[i].1.isMavenCentral && LegacyAnyCredentialProperty(repos[i].1)
  {
    LegacyImportDecided(repos);
    exists r :: r in LegacyNonCentral(Values(repos)) && LegacyAnyCredentialProperty(r)
  }

  /** The repositories the loader registers: the non-Central ones, the
      first of each URL, in order. */
  function LegacyPlanRepositories(repos: OrderedMap<string, LegacyRepositoryInfo>): (r: seq<LoaderRepository>)
    ensures |r| == |DistinctBy(LegacyNonCentral(Values(repos)), LegacyUrl)|
    ensures forall k :: 0 <= k < |r| ==> r[k] == LegacyPlanRepository(DistinctBy(LegacyNonCentral(Values(repos)), LegacyUrl)[k])
  {
    var unique := DistinctBy(LegacyNonCentral(Values(repos)), LegacyUrl);
    seq(|unique|, k requires 0 <= k < |unique| => LegacyPlanRepository(unique[k]))
  }

  lemma LegacyPlanRepositoriesFacts(repos: OrderedMap<string, LegacyRepositoryInfo>)
    ensures var r := LegacyPlanRepositories(repos);
      forall i, j :: 0 <= i < j < |r| ==> r[i].url != r[j].url
    ensures var r := LegacyPlanRepositories(repos);
      forall k :: 0 <= k < |r| ==> exists x :: x in Values(repos) && !x.isMavenCentral && r[k] == LegacyPlanRepository(x)
    ensures var r := LegacyPlanRepositories(repos);
      forall k :: 0 <= k < |r| && IsFileProtocol(r[k].url) ==> r[k].auth.None?
    ensures var r := LegacyPlanRepositories(repos);
      forall k :: 0 <= k < |r| && r[k].auth.Some? ==> LegacyAuthImport(repos)
  {
    var kept := LegacyNonCentral(Values(repos));
    var unique := DistinctBy(kept, LegacyUrl);
    var r := LegacyPlanRepositories(repos);
    LegacyUniqueKept(repos);
    forall k | 0 <= k < |r|
      ensures exists x :: x in Values(repos) && !x.isMavenCentral && r[k] == LegacyPlanRepository(x)
    {
      assert unique[k] in unique;
    }
    forall k | 0 <= k < |r| && r[k].auth.Some?
      ensures LegacyAuthImport(repos)
    {
      assert unique[k] in kept;
    }
  }

  /** The import is decided on the non-Central repositories, before
      repeated URLs are dropped. */
  lemma LegacyImportDecided(repos: OrderedMap<string, LegacyRepositoryInfo>)
    ensures (exists r :: r in LegacyNonCentral(Values(repos)) && LegacyAnyCredentialProperty(r)) <==>
      exists i :: 0 <= i < |repos| && !repos[i].1.isMavenCentral && LegacyAnyCredentialProperty(repos[i].1)
  {
    var kept := LegacyNonCentral(Values(repos));
    if exists r :: r in kept && LegacyAnyCredentialProperty(r) {
      var r :| r in kept && LegacyAnyCredentialProperty(r);
      var i :| 0 <= i < |repos| && Values(repos)[i] == r;
    }
    if exists i :: 0 <= i < |repos| && !repos[i].1.isMavenCentral && LegacyAnyCredentialProperty(repos[i].1) {
      var i :| 0 <= i < |repos| && !repos[i].1.isMavenCentral && LegacyAnyCredentialProperty(repos[i].1);
      assert Values(repos)[i] in kept;
    }
  }

  /** Every repository the loader registers is a stored non-Central one. */
  lemma LegacyUniqueKept(repos: OrderedMap<string, LegacyRepositoryInfo>)
    ensures forall x :: x in DistinctBy(LegacyNonCentral(Values(repos)), LegacyUrl) ==> x in Values(repos) && !x.isMavenCentral
  {
    var kept := LegacyNonCentral(Values(repos));
    forall x | x in DistinctBy(kept, LegacyUrl)
      ensures x in Values(repos) && !x.isMavenCentral
    {
      var i :| 0 <= i < |kept| && FirstOfKey(kept, LegacyUrl, i) && kept[i] == x;
      assert kept[i] in kept;
    }
  }

  /** For the repositories the older collector produces the `file:`
      exclusion changes nothing: such a repository never has credential
      properties to begin with. */
  lemma ExclusionRedundantAfterCollect(declared: seq<DeclaredRepository>, i: nat)
    requires i < |LegacyCollectAllRepositories(declared)|
    ensures var info := LegacyCollectAllRepositories(declared)[i].1;
      LegacyAuthFor(info).Some? <==> info.usernameProperty.Some? && info.passwordProperty.Some?
  {
    FileRepositoriesHaveNoCredentials(declared, i);
  }

  /** A `file:` repository given both properties by hand still triggers
      the import but gets no credentials block. */
  lemma FileRepositoryNotAuthenticated(name: string, path: string)
    ensures var info := LegacyRepositoryInfo(name, "file:" + path, Some(name + ".username"), Some(name + ".password"), false, true);
      var p := LegacyPlanLoader([], [(name, info)]);
      p.authImport && p.repositories == [LoaderRepository(name, "file:" + path, None)]
  {
    var info := LegacyRepositoryInfo(name, "file:" + path, Some(name + ".username"), Some(name + ".password"), false, true);
    var repos := [(name, info)];
    assert DistinctBy(LegacyNonCentral(Values(repos)), LegacyUrl) == [info] by {
      assert Values(repos) == [info];
      assert LegacyNonCentral([info]) == [info] by {
        assert [info][1..] == [];
      }
      assert [info][..0] == [];
    }
    assert LegacyPlanRepository(info) == LoaderRepository(name, "file:" + path, None) by {
      assert info.url[..5] == "file:";
    }
    assert repos[0].1 == info;
  }
}
