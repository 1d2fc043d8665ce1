/** The decisions of the build tasks in `Tasks.kt` (current plugin; the
    older plugin's download layout and `plugin.yml` rewrite are the same
    code): where `download` puts each runtime jar, which repositories and
    credentials the generated Paper loader uses, and how the loader line
    is written into the plugin descriptor. The generated Java text itself
    is not modelled, only the choices it encodes. */
module Tasks {
  import opened Common
  import opened Text
  import opened Models
  import opened ManifestCodec

  // ---------------------------------------------------------------------
  // RuntimeDependencyTask.download

  /** Kotlin's `File.nameWithoutExtension`: the name before its last `.`. */
  function NameWithoutExtension(fileName: string): (r: string)
    ensures '.' !in fileName ==> r == fileName
    ensures '.' in fileName ==>
      |r| < |fileName| && fileName == r + "." + fileName[|r| + 1..] && '.' !in fileName[|r| + 1..]
  {
    var r := SubstringBeforeLast(fileName, '.');
    if '.' in fileName then
      assert fileName == r + "." + fileName[|r| + 1..];
      r
    else r
  }

  /** The directory `organizeByGroup` puts a file in: the dash-separated
      fields of the extensionless name without the last one, or `unknown`
      when there is no dash. That is exactly the text before the last `-`. */
  function GroupDirectory(stem: string): (r: string)
    ensures '-' !in stem ==> r == "unknown"
    ensures '-' in stem ==> r == SubstringBeforeLast(stem, '-')
  {
    var parts := SplitAll(stem, '-');
    if |parts| >= 2 then
      JoinSplitLast(stem, '-');
      SplitAllFieldsFree(stem, '-');
      BeforeLastUnique(stem, '-', JoinWith(parts[..|parts| - 1], '-'), parts[|parts| - 1]);
      JoinWith(parts[..|parts| - 1], '-')
    else "unknown"
  }

  /** The path, relative to the output directory, a file is copied to. */
  function Destination(organize: bool, fileName: string): (r: string)
    ensures !organize ==> r == fileName
    ensures organize ==> EndsWith(r, "/" + fileName)
    ensures organize && '-' in NameWithoutExtension(fileName) ==>
      r == SubstringBeforeLast(NameWithoutExtension(fileName), '-') + "/" + fileName
  {
    if organize then
      var r := GroupDirectory(NameWithoutExtension(fileName)) + "/" + fileName;
      assert r[|r| - |"/" + fileName|..] == "/" + fileName;
      r
    else fileName
  }

  lemma StemOfName(stem: string, ext: string)
    requires '.' !in ext
    ensures NameWithoutExtension(stem + "." + ext) == stem
  {
    assert stem + "." + ext == stem + ['.'] + ext;
    BeforeLastUnique(stem + "." + ext, '.', stem, ext);
  }

  lemma GroupOfStem(front: string, last: string)
    requires '-' !in last
    ensures GroupDirectory(front + "-" + last) == front
  {
    var stem := front + "-" + last;
    assert stem == front + ['-'] + last;
    assert stem[|front|] == '-';
    BeforeLastUnique(stem, '-', front, last);
  }

  /** The group directory keeps everything up to the last dash: for a
      jar named `<artifact>-<version>-<classifier>.<ext>` it is
      `<artifact>-<version>`, not the artifact name. */
  lemma DashedJarDestination(front: string, last: string, ext: string)
    requires '-' !in last && '.' !in ext
    ensures Destination(true, front + "-" + last + "." + ext) == front + "/" + front + "-" + last + "." + ext
  {
    var name := front + "-" + last + "." + ext;
    assert NameWithoutExtension(name) == front + "-" + last by {
      StemOfName(front + "-" + last, ext);
    }
    assert GroupDirectory(front + "-" + last) == front by {
      GroupOfStem(front, last);
    }
    assert Destination(true, name) == front + "/" + name;
  }

  /** The output directory after `download`: every file is copied, with
      overwriting, to its destination, in the order the files are listed. */
  function Download<C>(organize: bool, files: seq<(string, C)>): (r: map<string, C>)
    ensures forall p :: p in r <==> exists i :: 0 <= i < |files| && Destination(organize, files[i].0) == p
    decreases |files|
  {
    if files == [] then map[]
    else
      var prefix := files[..|files| - 1];
      var last := files[|files| - 1];
      var r := Download(organize, prefix)[Destination(organize, last.0) := last.1];
      assert forall i :: 0 <= i < |prefix| ==> prefix[i] == files[i];
      r
  }

  /** The file a destination ends up holding is the last one copied there. */
  lemma {:induction false} LastCopyWins<C>(organize: bool, files: seq<(string, C)>, i: nat)
    requires i < |files|
    requires forall j :: i < j < |files| ==> Destination(organize, files[j].0) != Destination(organize, files[i].0)
    ensures Download(organize, files)[Destination(organize, files[i].0)] == files[i].1
    decreases |files|
  {
    if i < |files| - 1 {
      var prefix := files[..|files| - 1];
      assert prefix[i] == files[i];
      forall j | i < j < |prefix|
        ensures Destination(organize, prefix[j].0) != Destination(organize, prefix[i].0)
      {
        assert prefix[j] == files[j];
      }
      LastCopyWins(organize, prefix, i);
    }
  }

  // ---------------------------------------------------------------------
  // GeneratePaperLoaderTask.generateLoaderClass: repository selection

  /** The credentials block of one generated repository: the environment
      variable prefix and the two system-property fallbacks. */
  datatype LoaderAuth = LoaderAuth(envPrefix: string, usernameProperty: string, passwordProperty: string)

  /** One `RemoteRepository` the generated loader registers. */
  datatype LoaderRepository = LoaderRepository(name: string, url: string, auth: Option<LoaderAuth>)

  /** What the generated `PluginLoader` does: whether it imports
      `AuthenticationBuilder`, the coordinates it adds, and the
      repositories it registers, in order. */
  datatype LoaderPlan = LoaderPlan(authImport: bool, dependencies: seq<string>, repositories: seq<LoaderRepository>)

  function Url(r: RepositoryInfo): string {
    r.url
  }

  /** `groupId:artifactId:version`. */
  function CoordinateText(d: DependencyInfo): string {
    d.groupId + ":" + d.artifactId + ":" + d.version
  }

  /** The credentials block: present only when both properties are set. */
  function AuthFor(r: RepositoryInfo): Option<LoaderAuth> {
    if NeedsAuth(r) then Some(LoaderAuth(EnvPrefix(r.name), r.usernameProperty.value, r.passwordProperty.value))
    else None
  }

  function PlanRepository(r: RepositoryInfo): LoaderRepository {
    LoaderRepository(r.name, r.url, AuthFor(r))
  }

  /** Either credential property is set. */
  predicate AnyCredentialProperty(r: RepositoryInfo) {
    r.usernameProperty.Some? || r.passwordProperty.Some?
  }

  /** `generateLoaderClass`: the repositories that are not Central, without
      repeated URLs (the first one wins), each with a credentials block
      exactly when both properties are set; the import is decided on the
      repositories before the duplicates are dropped. */
  function PlanLoader(deps: seq<DependencyInfo>, repos: OrderedMap<string, RepositoryInfo>): (p: LoaderPlan)
    ensures p.authImport <==> exists i :: 0 <= i < |repos| && !repos[i].1.isMavenCentral && AnyCredentialProperty(repos[i].1)
    ensures |p.dependencies| == |deps|
    ensures forall i :: 0 <= i < |deps| ==> p.dependencies[i] == CoordinateText(deps[i])
    ensures forall i, j :: 0 <= i < j < |p.repositories| ==> p.repositories[i].url != p.repositories[j].url
    ensures forall k :: 0 <= k < |p.repositories| ==>
      exists r :: r in Values(repos) && !r.isMavenCentral && p.repositories[k] == PlanRepository(r)
    ensures forall k :: 0 <= k < |p.repositories| && p.repositories[k].auth.Some? ==> p.authImport
  {
    PlanRepositoriesFacts(repos);
    LoaderPlan(AuthImport(repos), seq(|deps|, i requires 0 <= i < |deps| => CoordinateText(deps[i])), PlanRepositories(repos))
  }

  /** The import is decided on the non-Central repositories, before
      repeated URLs are dropped. */
  function AuthImport(repos: OrderedMap<string, RepositoryInfo>): (b: bool)
    ensures b <==> exists i :: 0 <= i < |repos| && !repos[i].1.isMavenCentral && AnyCredentialProperty(repos[i].1)
  {
    ImportDecided(repos);
    exists r :: r in NonCentral(Values(repos)) && AnyCredentialProperty(r)
  }

  /** The repositories the loader registers: the non-Central ones, the
      first of each URL, in order. */
  function PlanRepositories(repos: OrderedMap<string, RepositoryInfo>): (r: seq<LoaderRepository>)
    ensures |r| == |DistinctBy(NonCentral(Values(repos)), Url)|
    ensures forall k :: 0 <= k < |r| ==> r[k] == PlanRepository(DistinctBy(NonCentral(Values(repos)), Url)[k])
  {
    var unique := DistinctBy(NonCentral(Values(repos)), Url);
    seq(|unique|, k requires 0 <= k < |unique| => PlanRepository(unique[k]))
  }

  lemma PlanRepositoriesFacts(repos: OrderedMap<string, RepositoryInfo>)
    ensures var r := PlanRepositories(repos);
      forall i, j :: 0 <= i < j < |r| ==> r[i].url != r[j].url
    ensures var r := PlanRepositories(repos);
      forall k :: 0 <= k < |r| ==> exists x :: x in Values(repos) && !x.isMavenCentral && r[k] == PlanRepository(x)
    ensures var r := PlanRepositories(repos);
      forall k :: 0 <= k < |r| && r[k].auth.Some? ==> AuthImport(repos)
  {
    var kept := NonCentral(Values(repos));
    var unique := DistinctBy(kept, Url);
    var r := PlanRepositories(repos);
    UniqueKept(repos);
    forall k | 0 <= k < |r|
      ensures exists x :: x in Values(repos) && !x.isMavenCentral && r[k] == PlanRepository(x)
    {
      assert unique[k] in unique;
    }
    forall k | 0 <= k < |r| && r[k].auth.Some?
      ensures AuthImport(repos)
    {
      assert unique[k] in kept;
    }
  }

  /** The import is decided on the non-Central repositories, before
      repeated URLs are dropped. */
  lemma ImportDecided(repos: OrderedMap<string, RepositoryInfo>)
    ensures (exists r :: r in NonCentral(Values(repos)) && AnyCredentialProperty(r)) <==>
      exists i :: 0 <= i < |repos| && !repos[i].1.isMavenCentral && AnyCredentialProperty(repos[i].1)
  {
    var kept := NonCentral(Values(repos));
    if exists r :: r in kept && AnyCredentialProperty(r) {
      var r :| r in kept && AnyCredentialProperty(r);
      var i :| 0 <= i < |repos| && Values(repos)[i] == r;
    }
    if exists i :: 0 <= i < |repos| && !repos[i].1.isMavenCentral && AnyCredentialProperty(repos[i].1) {
      var i :| 0 <= i < |repos| && !repos[i].1.isMavenCentral && AnyCredentialProperty(repos[i].1);
      assert Values(repos)[i] in kept;
    }
  }

  /** Every repository the loader registers is a stored non-Central one. */
  lemma UniqueKept(repos: OrderedMap<string, RepositoryInfo>)
    ensures forall x :: x in DistinctBy(NonCentral(Values(repos)), Url) ==> x in Values(repos) && !x.isMavenCentral
  {
    var kept := NonCentral(Values(repos));
    forall x | x in DistinctBy(kept, Url)
      ensures x in Values(repos) && !x.isMavenCentral
    {
      var i :| 0 <= i < |kept| && FirstOfKey(kept, Url, i) && kept[i] == x;
      assert kept[i] in kept;
    }
  }

  /** Every URL of a non-Central repository is registered by the loader. */
  lemma PlanCoversEveryUrl(deps: seq<DependencyInfo>, repos: OrderedMap<string, RepositoryInfo>, i: nat)
    requires i < |repos| && !repos[i].1.isMavenCentral
    ensures exists k :: 0 <= k < |PlanLoader(deps, repos).repositories| && PlanLoader(deps, repos).repositories[k].url == repos[i].1.url
  {
    var kept := NonCentral(Values(repos));
    var unique := DistinctBy(kept, Url);
    assert Values(repos)[i] in kept;
    var j :| 0 <= j < |kept| && kept[j] == repos[i].1;
    FirstOfKeyExists(kept, Url, j);
    var f :| 0 <= f <= j && FirstOfKey(kept, Url, f) && Url(kept[f]) == Url(kept[j]);
    assert kept[f] in unique;
    var k :| 0 <= k < |unique| && unique[k] == kept[f];
    assert PlanLoader(deps, repos).repositories[k] == PlanRepository(unique[k]);
  }

  lemma NonCentralPair(a: RepositoryInfo, b: RepositoryInfo)
    requires !a.isMavenCentral && !b.isMavenCentral
    ensures NonCentral([a, b]) == [a, b]
  {
    assert [a, b][1..] == [b];
    assert [b][1..] == [];
  }

  lemma DistinctBySameKey<T>(a: T, b: T, key: T -> string)
    requires key(a) == key(b)
    ensures DistinctBy([a, b], key) == [a]
  {
    assert [a, b][..1] == [a];
    assert [a][..0] == [];
    assert DistinctBy([a], key) == [a];
  }

  /** The import is decided before duplicates are dropped: a credentialed
      repository that repeats an earlier URL makes the loader import
      `AuthenticationBuilder` although no repository it registers uses it. */
  lemma ImportWithoutCredentialsBlock(u: string)
    ensures var repos := [("a", RepositoryInfo("a", u, None, None, false)),
                          ("b", RepositoryInfo("b", u, Some("b.username"), Some("b.password"), false))];
      var p := PlanLoader([], repos);
      p.authImport && p.repositories == [LoaderRepository("a", u, None)]
  {
    var a := RepositoryInfo("a", u, None, None, false);
    var b := RepositoryInfo("b", u, Some("b.username"), Some("b.password"), false);
    var repos := [("a", a), ("b", b)];
    assert PlanRepositories(repos) == [LoaderRepository("a", u, None)] by {
      assert Values(repos) == [a, b];
      NonCentralPair(a, b);
      DistinctBySameKey(a, b, Url);
      assert PlanRepository(a) == LoaderRepository("a", u, None);
    }
    assert AuthImport(repos) by {
      assert repos[1].1 == b && !b.isMavenCentral && AnyCredentialProperty(b);
    }
  }

  // ---------------------------------------------------------------------
  // GeneratePaperLoaderTask.updatePluginYml

  /** The plugin descriptors present in the resources directory, by content. */
  datatype Resources = Resources(paperPluginYml: Option<string>, pluginYml: Option<string>)

  /** The outcome: nothing written, or the new text of one descriptor. */
  datatype DescriptorUpdate = Skipped | Rewritten(fileName: string, text: string)

  const PaperDescriptor := "paper-plugin.yml"
  const PluginDescriptor := "plugin.yml"

  /** `loader:` in `paper-plugin.yml`, `paper-plugin-loader:` in `plugin.yml`. */
  function LoaderKey(isPaper: bool): string {
    if isPaper then "loader:" else "paper-plugin-loader:"
  }

  function LoaderLine(isPaper: bool, packageName: string, className: string): string {
    LoaderKey(isPaper) + " " + packageName + "." + className
  }

  /** A line that, trimmed, starts with either loader key. */
  predicate IsLoaderLine(line: string) {
    var t := KotlinTrim(line);
    StartsWith(t, "loader:") || StartsWith(t, "paper-plugin-loader:")
  }

  /** `xs[k]` is the first element satisfying `p`. */
  predicate IsFirstMatch<T>(xs: seq<T>, p: T -> bool, k: nat)
    requires k < |xs|
  {
    p(xs[k]) && forall j :: 0 <= j < k ==> !p(xs[j])
  }

  predicate HasMatch<T>(xs: seq<T>, p: T -> bool) {
    exists k :: 0 <= k < |xs| && p(xs[k])
  }

  /** Kotlin's `indexOfFirst(p)`. */
  function IndexOfFirst<T>(xs: seq<T>, p: T -> bool): (i: int)
    ensures -1 <= i < |xs|
    ensures i >= 0 ==> IsFirstMatch(xs, p, i)
    ensures i < 0 <==> !HasMatch(xs, p)
  {
    if xs == [] then -1
    else if p(xs[0]) then 0
    else
      var i := IndexOfFirst(xs[1..], p);
      assert forall k :: 1 <= k < |xs| ==> xs[k] == xs[1..][k - 1];
      if i < 0 then -1 else i + 1
  }

  lemma FirstMatchUnique<T>(xs: seq<T>, p: T -> bool, i: nat, k: nat)
    requires i < |xs| && k < |xs|
    requires IsFirstMatch(xs, p, i) && IsFirstMatch(xs, p, k)
    ensures i == k
  {
  }

  /** The list edit of `updatePluginYml`: the first element satisfying `p`
      is replaced by `x`, or `x` goes in front when there is none. */
  function ReplaceFirstOrPrepend<T>(xs: seq<T>, p: T -> bool, x: T): (r: seq<T>)
    ensures forall k :: 0 <= k < |xs| && IsFirstMatch(xs, p, k) ==> r == xs[k := x]
    ensures !HasMatch(xs, p) ==> r == [x] + xs
  {
    var i := IndexOfFirst(xs, p);
    if i >= 0 then
      assert forall k :: 0 <= k < |xs| && IsFirstMatch(xs, p, k) ==> k == i by {
        forall k | 0 <= k < |xs| && IsFirstMatch(xs, p, k)
          ensures k == i
        {
          FirstMatchUnique(xs, p, i, k);
        }
      }
      xs[i := x]
    else [x] + xs
  }

  /** With a match present, the length stays and every element but the
      first match is kept. */
  lemma ReplaceKeepsOthers<T>(xs: seq<T>, p: T -> bool, x: T)
    requires HasMatch(xs, p)
    ensures |ReplaceFirstOrPrepend(xs, p, x)| == |xs|
    ensures forall k :: 0 <= k < |xs| && !IsFirstMatch(xs, p, k) ==> ReplaceFirstOrPrepend(xs, p, x)[k] == xs[k]
  {
    var i := IndexOfFirst(xs, p);
    var r := ReplaceFirstOrPrepend(xs, p, x);
    assert r == xs[i := x];
    forall k | 0 <= k < |xs| && !IsFirstMatch(xs, p, k)
      ensures r[k] == xs[k]
    {
      assert k != i;
    }
  }

  /** Without a match, exactly one element is added, in front. */
  lemma PrependKeepsAll<T>(xs: seq<T>, p: T -> bool, x: T)
    requires !HasMatch(xs, p)
    ensures |ReplaceFirstOrPrepend(xs, p, x)| == |xs| + 1
    ensures ReplaceFirstOrPrepend(xs, p, x)[0] == x
    ensures forall k :: 0 <= k < |xs| ==> ReplaceFirstOrPrepend(xs, p, x)[k + 1] == xs[k]
  {
    assert ReplaceFirstOrPrepend(xs, p, x) == [x] + xs;
  }

  /** Editing again with an element that itself matches changes nothing. */
  lemma ReplaceIdempotent<T>(xs: seq<T>, p: T -> bool, x: T)
    requires p(x)
    ensures ReplaceFirstOrPrepend(ReplaceFirstOrPrepend(xs, p, x), p, x) == ReplaceFirstOrPrepend(xs, p, x)
  {
    var r := ReplaceFirstOrPrepend(xs, p, x);
    var i := IndexOfFirst(xs, p);
    if i >= 0 {
      assert IsFirstMatch(r, p, i);
    } else {
      assert IsFirstMatch(r, p, 0);
    }
  }

  /** The rewrite of the descriptor's lines. */
  function RewriteLoaderLine(lines: seq<string>, line: string): seq<string> {
    ReplaceFirstOrPrepend(lines, IsLoaderLine, line)
  }

  /** Every line the task writes is recognised as a loader line. */
  lemma WrittenLineIsLoaderLine(isPaper: bool, packageName: string, className: string)
    ensures IsLoaderLine(LoaderLine(isPaper, packageName, className))
  {
    var key := LoaderKey(isPaper);
    var line := LoaderLine(isPaper, packageName, className);
    assert StartsWith(line, key) by {
      assert line == key + (" " + packageName + "." + className);
    }
    KotlinTrimKeepsPrefix(line, key);
  }

  /** Lines that come back from being joined once a one-line declaration
      is put among them: the declaration holds no line break and is not
      empty, and the last line is not empty. */
  predicate ReadsBack(ls: seq<string>, line: string) {
    NoLineBreak(line) && line != [] && (ls != [] ==> ls[|ls| - 1] != [])
  }

  /** A descriptor's text after the rewrite: read as lines, rewritten,
      joined with `\n`. */
  function RewriteText(text: string, line: string): (r: string)
    ensures ReadsBack(ReadLines(text), line) ==> ReadLines(r) == RewriteLoaderLine(ReadLines(text), line)
  {
    var ls := ReadLines(text);
    var r := JoinLines(RewriteLoaderLine(ls, line));
    if ReadsBack(ls, line) then
      RewrittenLinesReadBack(ls, line);
      r
    else r
  }

  /** `updatePluginYml`: `paper-plugin.yml` is preferred over `plugin.yml`,
      the key follows the file, and without either file nothing is written. */
  function UpdatePluginYml(res: Resources, packageName: string, className: string): (u: DescriptorUpdate)
    ensures u.Skipped? <==> res.paperPluginYml.None? && res.pluginYml.None?
    ensures u.Rewritten? ==> (u.fileName == PaperDescriptor <==> res.paperPluginYml.Some?)
    ensures u.Rewritten? ==>
      var original := if res.paperPluginYml.Some? then res.paperPluginYml.value else res.pluginYml.value;
      u.text == RewriteText(original, LoaderLine(res.paperPluginYml.Some?, packageName, className))
  {
    match res.paperPluginYml
    case Some(text) => Rewritten(PaperDescriptor, RewriteText(text, LoaderLine(true, packageName, className)))
    case None =>
      match res.pluginYml
      case Some(text) => Rewritten(PluginDescriptor, RewriteText(text, LoaderLine(false, packageName, className)))
      case None => Skipped
  }

  lemma LoaderLineSingle(isPaper: bool, packageName: string, className: string)
    requires NoLineBreak(packageName) && NoLineBreak(className)
    ensures NoLineBreak(LoaderLine(isPaper, packageName, className)) && LoaderLine(isPaper, packageName, className) != []
  {
    var key := LoaderKey(isPaper);
    assert NoLineBreak(key);
    var line := LoaderLine(isPaper, packageName, className);
    assert line == key + " " + packageName + "." + className;
  }

  /** The lines of a first rewrite hold no terminator and do not end with
      an empty line, so they are read back unchanged. */
  lemma RewrittenLinesReadBack(lines: seq<string>, line: string)
    requires forall i :: 0 <= i < |lines| ==> NoLineBreak(lines[i])
    requires lines != [] ==> lines[|lines| - 1] != []
    requires NoLineBreak(line) && line != []
    ensures ReadLines(JoinLines(ReplaceFirstOrPrepend(lines, IsLoaderLine, line))) == ReplaceFirstOrPrepend(lines, IsLoaderLine, line)
  {
    EditedLinesReadBack(lines, IsLoaderLine, line);
  }

  /** The same for any choice of the line to replace. */
  lemma EditedLinesReadBack(lines: seq<string>, p: string -> bool, line: string)
    requires forall i :: 0 <= i < |lines| ==> NoLineBreak(lines[i])
    requires lines != [] ==> lines[|lines| - 1] != []
    requires NoLineBreak(line) && line != []
    ensures ReadLines(JoinLines(ReplaceFirstOrPrepend(lines, p, line))) == ReplaceFirstOrPrepend(lines, p, line)
  {
    var r := ReplaceFirstOrPrepend(lines, p, line);
    if HasMatch(lines, p) {
      var i := IndexOfFirst(lines, p);
      assert r == lines[i := line];
    } else {
      assert r == [line] + lines;
      assert forall k :: 1 <= k < |r| ==> r[k] == lines[k - 1];
    }
    ReadJoinedLines(r);
  }

  /** Running the update a second time leaves the descriptor as the first
      run wrote it, provided the names hold no line break and the original
      text does not end with a blank line. */
  lemma RewriteTextIdempotent(text: string, isPaper: bool, packageName: string, className: string)
    requires NoLineBreak(packageName) && NoLineBreak(className)
    requires var ls := ReadLines(text); ls != [] ==> ls[|ls| - 1] != []
    ensures var line := LoaderLine(isPaper, packageName, className);
      RewriteText(RewriteText(text, line), line) == RewriteText(text, line)
  {
    var line := LoaderLine(isPaper, packageName, className);
    LoaderLineSingle(isPaper, packageName, className);
    WrittenLineIsLoaderLine(isPaper, packageName, className);
    var lines := ReadLines(text);
    RewrittenLinesReadBack(lines, line);
    ReplaceIdempotent(lines, IsLoaderLine, line);
  }

  lemma TwoBlankLinesRead()
    ensures ReadLines("\n\n") == ["", ""]
  {
    ReadLinesCons("", "\n");
    ReadLinesCons("", "");
    assert "" + "\n" + "\n" == "\n\n";
    assert "" + "\n" + "" == "\n";
  }

  lemma EmptyIsNoLoaderLine()
    ensures !IsLoaderLine("")
  {
    assert KotlinTrim("") == "";
  }

  lemma PrependToBlankLines(line: string)
    ensures RewriteLoaderLine(["", ""], line) == [line, "", ""]
  {
    var blank := ["", ""];
    EmptyIsNoLoaderLine();
    assert blank[0] == "" && blank[1] == "";
    PrependKeepsAll(blank, IsLoaderLine, line);
  }

  lemma JoinWithTwoBlankLines(line: string)
    ensures JoinLines([line, "", ""]) == line + "\n\n"
  {
    JoinCons("", [""], '\n');
    assert [""] + [""] == ["", ""];
    JoinCons(line, ["", ""], '\n');
    assert [line] + ["", ""] == [line, "", ""];
  }

  lemma RewriteTwoBlankLines(line: string)
    ensures RewriteText("\n\n", line) == line + "\n\n"
  {
    TwoBlankLinesRead();
    PrependToBlankLines(line);
    JoinWithTwoBlankLines(line);
  }

  lemma RewriteLoaderThenBlank(line: string)
    requires IsLoaderLine(line) && NoLineBreak(line)
    ensures RewriteText(line + "\n\n", line) == line + "\n"
  {
    var ls := ReadLines(line + "\n\n");
    LineThenBlankRead(line);
    assert RewriteLoaderLine(ls, line) == ls by {
      ReplaceLeadingMatch(line, "", IsLoaderLine);
    }
    LineThenBlankJoined(line);
  }

  lemma LineThenBlankRead(line: string)
    requires NoLineBreak(line)
    ensures ReadLines(line + "\n\n") == [line, ""]
  {
    ReadLinesCons(line, "\n");
    ReadLinesCons("", "");
    assert "" + "\n" + "" == "\n";
    assert line + "\n\n" == line + "\n" + "\n";
  }

  lemma LineThenBlankJoined(line: string)
    ensures JoinLines([line, ""]) == line + "\n"
  {
    JoinCons(line, [""], '\n');
    assert [line] + [""] == [line, ""];
  }

  /** A leading element that matches is replaced by itself. */
  lemma ReplaceLeadingMatch<T>(x: T, y: T, p: T -> bool)
    requires p(x)
    ensures ReplaceFirstOrPrepend([x, y], p, x) == [x, y]
  {
    assert IsFirstMatch([x, y], p, 0);
  }

  /** A descriptor ending in a blank line is not stable: each run reads one
      trailing empty line fewer than the previous run wrote, so a second
      run drops a line break. */
  lemma RepeatedRewriteDropsTrailingBlank(line: string)
    requires IsLoaderLine(line) && NoLineBreak(line)
    ensures RewriteText("\n\n", line) == line + "\n\n"
    ensures RewriteText(RewriteText("\n\n", line), line) == line + "\n"
  {
    RewriteTwoBlankLines(line);
    RewriteLoaderThenBlank(line);
  }
}
