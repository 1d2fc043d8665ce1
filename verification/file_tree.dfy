/** The directory walks the launchers perform: BootstrapMain's search for
    one jar by exact file name, and RuntimeDependencyClassLoader's
    collection of every jar under a library directory.

    A directory is a tree of nodes whose children are listed in the order
    `File.listFiles` returns them. A node inside a directory is addressed by
    its index path: the position of each directory on the way down, then the
    position of the node itself. Visiting children in listing order and
    each directory before its contents (a depth-first, top-down walk) is the
    same as visiting index paths in lexicographic order. */
module FileTree {
  import opened Common
  import opened Text

  datatype Node = File(name: string) | Dir(name: string, children: seq<Node>)

  /** The node at index path `p` among the entries `cs`. */
  function NodeAt(cs: seq<Node>, p: seq<nat>): (r: Option<Node>)
    ensures r.Some? ==> p != [] && p[0] < |cs|
    decreases p
  {
    if p == [] || p[0] >= |cs| then None
    else if |p| == 1 then Some(cs[p[0]])
    else match cs[p[0]]
      case File(_) => None
      case Dir(_, sub) => NodeAt(sub, p[1..])
  }

  /** `a` comes before `b` in a top-down walk. */
  predicate LexLess(a: seq<nat>, b: seq<nat>) {
    (|a| < |b| && a == b[..|a|])
    || exists i :: 0 <= i < |a| && i < |b| && a[..i] == b[..i] && a[i] < b[i]
  }

  // ---------------------------------------------------------------------
  // BootstrapMain.findJarRecursively / findJarFile

  /** A regular file with exactly the wanted name. */
  predicate NamedFile(n: Node, jarName: string) {
    n.File? && n.name == jarName
  }

  /** `p` addresses a regular file named `jarName`, at or after entry `k`. */
  predicate MatchFrom(cs: seq<Node>, jarName: string, k: nat, p: seq<nat>) {
    var n := NodeAt(cs, p);
    n.Some? && NamedFile(n.value, jarName) && p[0] >= k
  }

  /** `findJarRecursively` from entry `k` on: a regular file with the name
      is returned, a directory is searched before the entries after it. */
  function FindFrom(cs: seq<Node>, jarName: string, k: nat): (r: Option<seq<nat>>)
    ensures r.Some? ==> MatchFrom(cs, jarName, k, r.value)
    decreases cs, |cs| - k
  {
    if k >= |cs| then None
    else match cs[k]
      case File(n) =>
        if n == jarName then Some([k]) else FindFrom(cs, jarName, k + 1)
      case Dir(_, sub) =>
        match FindFrom(sub, jarName, 0)
        case Some(q) =>
          assert ([k] + q)[1..] == q;
          Some([k] + q)
        case None => FindFrom(cs, jarName, k + 1)
  }

  /** A path below entry `k` starts at entry `k`, or later. */
  lemma NodeAtShift(cs: seq<Node>, k: nat, q: seq<nat>)
    requires k < |cs| && cs[k].Dir? && q != []
    ensures NodeAt(cs, [k] + q) == NodeAt(cs[k].children, q)
  {
    assert ([k] + q)[1..] == q;
  }

  /** Nothing is missed: whenever a matching file exists, one is found. */
  lemma {:induction false} FindComplete(cs: seq<Node>, jarName: string, k: nat, p: seq<nat>)
    requires MatchFrom(cs, jarName, k, p)
    ensures FindFrom(cs, jarName, k).Some?
    decreases cs, |cs| - k
  {
    if p[0] == k {
      if |p| > 1 {
        var q := p[1..];
        assert p == [k] + q;
        NodeAtShift(cs, k, q);
        FindComplete(cs[k].children, jarName, 0, q);
      }
    } else {
      if cs[k].Dir? && FindFrom(cs[k].children, jarName, 0).Some? {
      } else {
        FindComplete(cs, jarName, k + 1, p);
      }
    }
  }

  /** The search is depth-first in listing order: no matching file comes
      before the one returned. */
  lemma {:induction false} FindFirst(cs: seq<Node>, jarName: string, k: nat, q: seq<nat>)
    requires FindFrom(cs, jarName, k).Some? && MatchFrom(cs, jarName, k, q)
    ensures !LexLess(q, FindFrom(cs, jarName, k).value)
    decreases cs, |cs| - k
  {
    var p := FindFrom(cs, jarName, k).value;
    FindNoLater(cs, jarName, k, q);
    if q[0] > p[0] {
      LexLessHead(q, p);
    } else if p[0] > k {
      FindFirst(cs, jarName, k + 1, q);
    } else if cs[k].Dir? {
      var sub := cs[k].children;
      var p' := FindFrom(sub, jarName, 0).value;
      assert p == [k] + p';
      var q' := q[1..];
      assert q == [k] + q';
      NodeAtShift(cs, k, q');
      FindFirst(sub, jarName, 0, q');
      LexLessCons(k, q', p');
    } else {
      assert q == p;
    }
  }

  /** The entry the result lies under is no later than any match. */
  lemma {:induction false} FindNoLater(cs: seq<Node>, jarName: string, k: nat, q: seq<nat>)
    requires FindFrom(cs, jarName, k).Some? && MatchFrom(cs, jarName, k, q)
    ensures FindFrom(cs, jarName, k).value[0] <= q[0]
    decreases |cs| - k
  {
    if q[0] == k {
      if cs[k].Dir? {
        var q' := q[1..];
        assert q == [k] + q';
        NodeAtShift(cs, k, q');
        FindComplete(cs[k].children, jarName, 0, q');
      }
    } else if FindFrom(cs, jarName, k).value[0] != k {
      FindNoLater(cs, jarName, k + 1, q);
    }
  }

  /** A common first step does not change the walk order. */
  lemma LexLessCons(k: nat, a: seq<nat>, b: seq<nat>)
    ensures LexLess([k] + a, [k] + b) <==> LexLess(a, b)
  {
    var a2, b2 := [k] + a, [k] + b;
    if |a2| < |b2| && a2 == b2[..|a2|] {
      assert a == a2[1..];
      assert b2[..|a2|][1..] == b[..|a|];
    }
    if exists i :: 0 <= i < |a2| && i < |b2| && a2[..i] == b2[..i] && a2[i] < b2[i] {
      var i :| 0 <= i < |a2| && i < |b2| && a2[..i] == b2[..i] && a2[i] < b2[i];
      assert i > 0;
      assert a2[..i] == [k] + a[..i - 1];
      assert b2[..i] == [k] + b[..i - 1];
      assert ([k] + a[..i - 1])[1..] == a[..i - 1];
      assert ([k] + b[..i - 1])[1..] == b[..i - 1];
      assert a[..i - 1] == b[..i - 1];
      assert a[i - 1] == a2[i] && b[i - 1] == b2[i];
    }
    if LexLess(a, b) {
      LexLessConsKeeps(k, a, b);
    }
  }

  lemma LexLessHead(a: seq<nat>, b: seq<nat>)
    requires a != [] && b != [] && a[0] > b[0]
    ensures !LexLess(a, b)
  {
  }

  // ---------------------------------------------------------------------
  // The direct step of findJarFile: `new File(libDir, jarName).exists()`

  /** An ordinary entry name: one path segment that is neither `.` nor `..`. */
  predicate PlainName(s: string) {
    s != "" && s != "." && s != ".." && '/' !in s
  }

  /** `p` addresses the library directory itself (the empty path) or a
      node inside it. */
  predicate Addressable(cs: seq<Node>, p: seq<nat>) {
    p == [] || NodeAt(cs, p).Some?
  }

  /** The entries of the directory at `p`; nothing when `p` does not
      address a directory. */
  function EntriesAt(cs: seq<Node>, p: seq<nat>): (r: Option<seq<Node>>)
    ensures p == [] ==> r == Some(cs)
    ensures p != [] && r.Some? ==>
      NodeAt(cs, p).Some? && NodeAt(cs, p).value.Dir? && NodeAt(cs, p).value.children == r.value
    ensures p != [] && r.None? ==> NodeAt(cs, p).None? || NodeAt(cs, p).value.File?
  {
    if p == [] then Some(cs)
    else match NodeAt(cs, p)
      case Some(Dir(_, sub)) => Some(sub)
      case _ => None
  }

  /** The directory holding a node is addressable. */
  lemma {:induction false} ParentAddressable(cs: seq<Node>, p: seq<nat>)
    requires p != [] && NodeAt(cs, p).Some?
    ensures Addressable(cs, p[..|p| - 1])
    ensures EntriesAt(cs, p[..|p| - 1]).Some?
    decreases p
  {
    if |p| > 1 {
      var sub := cs[p[0]].children;
      var q := p[1..];
      ParentAddressable(sub, q);
      var parent := p[..|p| - 1];
      if |q| > 1 {
        assert parent == [p[0]] + q[..|q| - 1];
        NodeAtShift(cs, p[0], q[..|q| - 1]);
      }
    }
  }

  /** Stepping into entry `i` of a directory addresses that entry. */
  lemma {:induction false} ChildAddressable(cs: seq<Node>, p: seq<nat>, i: nat)
    requires EntriesAt(cs, p).Some? && i < |EntriesAt(cs, p).value|
    ensures NodeAt(cs, p + [i]) == Some(EntriesAt(cs, p).value[i])
    decreases p
  {
    if p != [] {
      var sub := cs[p[0]].children;
      var q := p[1..];
      assert p + [i] == [p[0]] + (q + [i]);
      NodeAtShift(cs, p[0], q + [i]);
      if q != [] {
        NodeAtShift(cs, p[0], q);
        ChildAddressable(sub, q, i);
      }
    }
  }

  /** Follows the `/`-separated segments of a relative name from the
      directory at `cur`, as the operating system does when `File.exists`
      asks about `new File(libDir, jarName)`: empty segments (doubled,
      leading or trailing separators, which `File` normalises away) are
      skipped; `.` stays and `..` goes up, both only from a directory; any
      other segment must name an entry of the current directory. The model
      holds only the library directory, so a `..` that climbs above it
      resolves to nothing. */
  function Resolve(cs: seq<Node>, segs: seq<string>, cur: seq<nat>): (r: Option<seq<nat>>)
    requires Addressable(cs, cur)
    ensures r.Some? ==> Addressable(cs, r.value)
    decreases |segs|
  {
    if segs == [] then Some(cur)
    else if segs[0] == "" then Resolve(cs, segs[1..], cur)
    else match EntriesAt(cs, cur)
      case None => None
      case Some(sub) =>
        if segs[0] == "." then Resolve(cs, segs[1..], cur)
        else if segs[0] == ".." then
          if cur == [] then None
          else
            ParentAddressable(cs, cur);
            Resolve(cs, segs[1..], cur[..|cur| - 1])
        else
          var i := DirectChild(sub, segs[0], 0);
          if i < 0 then None
          else
            ChildAddressable(cs, cur, i);
            Resolve(cs, segs[1..], cur + [i])
  }

  /** What `new File(libDir, jarName)` names, when it exists. */
  function DirectPath(libDir: seq<Node>, jarName: string): (r: Option<seq<nat>>)
    ensures r.Some? ==> Addressable(libDir, r.value)
  {
    Resolve(libDir, SplitAll(jarName, '/'), [])
  }

  /** `findJarFile`: whatever `new File(libDir, jarName)` names is taken
      when it exists, whatever it is (`File.exists` holds for directories
      too, and for the library directory itself when the name is `.`);
      otherwise the depth-first search for a regular file with exactly the
      name. */
  function FindJarFile(libDir: seq<Node>, jarName: string): (r: Option<seq<nat>>)
    ensures r.Some? ==> Addressable(libDir, r.value)
    ensures DirectPath(libDir, jarName).Some? ==> r == DirectPath(libDir, jarName)
    ensures DirectPath(libDir, jarName).None? && r.Some? ==> MatchFrom(libDir, jarName, 0, r.value)
    ensures PlainName(jarName) && (exists i :: 0 <= i < |libDir| && libDir[i].name == jarName) ==>
      r.Some? && |r.value| == 1 && NodeAt(libDir, r.value).value.name == jarName
  {
    DirectPathPlain(libDir, jarName);
    var d := DirectPath(libDir, jarName);
    if d.Some? then d else FindFrom(libDir, jarName, 0)
  }

  /** The first entry from `k` on with exactly the name, or -1. */
  function DirectChild(cs: seq<Node>, jarName: string, k: nat): (i: int)
    ensures i >= 0 ==> k <= i < |cs| && cs[i].name == jarName
    ensures i < 0 ==> forall j :: k <= j < |cs| ==> cs[j].name != jarName
    decreases |cs| - k
  {
    if k >= |cs| then -1
    else if cs[k].name == jarName then k
    else DirectChild(cs, jarName, k + 1)
  }

  /** An ordinary name is found directly exactly when an entry of the
      library directory carries it, and then it is the first such entry. */
  lemma DirectPathPlain(libDir: seq<Node>, name: string)
    ensures PlainName(name) ==>
      (DirectPath(libDir, name).Some? <==> exists i :: 0 <= i < |libDir| && libDir[i].name == name)
    ensures PlainName(name) && DirectPath(libDir, name).Some? ==>
      DirectPath(libDir, name) == Some([DirectChild(libDir, name, 0)])
  {
    if PlainName(name) {
      SplitJoin([name], '/');
      assert SplitAll(name, '/') == [name];
      var i := DirectChild(libDir, name, 0);
      if i >= 0 {
        ChildAddressable(libDir, [], i);
        assert [name][1..] == [] && [] + [i] == [i];
        assert Resolve(libDir, [name], []) == Resolve(libDir, [], [i]);
      }
    }
  }

  /** Every step of `p` goes to the first entry with its name, and that
      name is an ordinary one: `p` is what the names along it resolve to. */
  predicate NamedPath(cs: seq<Node>, p: seq<nat>)
    decreases p
  {
    && p != [] && p[0] < |cs|
    && PlainName(cs[p[0]].name) && DirectChild(cs, cs[p[0]].name, 0) == p[0]
    && (|p| == 1 || (cs[p[0]].Dir? && NamedPath(cs[p[0]].children, p[1..])))
  }

  /** The names of the nodes along `p`. */
  function NamesAlong(cs: seq<Node>, p: seq<nat>): (r: seq<string>)
    requires NamedPath(cs, p)
    ensures |r| == |p| && forall i :: 0 <= i < |r| ==> PlainName(r[i])
    decreases p
  {
    if |p| == 1 then [cs[p[0]].name]
    else [cs[p[0]].name] + NamesAlong(cs[p[0]].children, p[1..])
  }

  /** Following the names along `q` from a directory reaches `q` below it. */
  lemma {:induction false} ResolveNames(root: seq<Node>, cur: seq<nat>, q: seq<nat>)
    requires Addressable(root, cur) && EntriesAt(root, cur).Some?
    requires NamedPath(EntriesAt(root, cur).value, q)
    ensures Resolve(root, NamesAlong(EntriesAt(root, cur).value, q), cur) == Some(cur + q)
    decreases q
  {
    var sub := EntriesAt(root, cur).value;
    var names := NamesAlong(sub, q);
    ChildAddressable(root, cur, q[0]);
    var next := cur + [q[0]];
    assert names[0] == sub[q[0]].name && PlainName(names[0]);
    assert Resolve(root, names, cur) == Resolve(root, names[1..], next);
    if |q| == 1 {
      assert names[1..] == [] && q == [q[0]];
    } else {
      assert EntriesAt(root, next) == Some(sub[q[0]].children);
      ResolveNames(root, next, q[1..]);
      assert names[1..] == NamesAlong(sub[q[0]].children, q[1..]);
      assert next + q[1..] == cur + q;
    }
  }

  /** The name made of the entry names along a path, joined with `/`,
      leads `findJarFile` straight to that path. */
  lemma PathNameResolves(libDir: seq<Node>, p: seq<nat>)
    requires NamedPath(libDir, p)
    ensures FindJarFile(libDir, JoinWith(NamesAlong(libDir, p), '/')) == Some(p)
  {
    var names := NamesAlong(libDir, p);
    SplitJoin(names, '/');
    ResolveNames(libDir, [], p);
    assert [] + p == p;
    assert DirectPath(libDir, JoinWith(names, '/')) == Some(p);
  }

  /** A relative name reaches into a subdirectory: `sub/x.jar` finds the
      jar inside `sub`. */
  lemma NestedNameResolves(sub: string, jar: string)
    requires PlainName(sub) && PlainName(jar)
    ensures FindJarFile([Dir(sub, [File(jar)])], sub + "/" + jar) == Some([0, 0])
  {
    var lib := [Dir(sub, [File(jar)])];
    assert NamedPath(lib[0].children, [0]);
    assert NamedPath(lib, [0, 0]);
    assert NamesAlong(lib, [0, 0]) == [sub, jar];
    PathNameResolves(lib, [0, 0]);
  }

  /** `.` names the library directory itself, which exists, so it is what
      `findJarFile` returns and what reaches the class path. */
  lemma DotIsLibraryDirectory(libDir: seq<Node>)
    ensures FindJarFile(libDir, ".") == Some([])
  {
    SplitJoin(["."], '/');
    assert SplitAll(".", '/') == ["."];
  }

  /** `d/../x` splits into its three segments. */
  lemma UpAgainSegments(d: string, x: string)
    requires PlainName(d) && PlainName(x)
    ensures SplitAll(d + "/../" + x, '/') == [d, "..", x]
  {
    var parts := [d, "..", x];
    assert JoinWith(parts, '/') == d + "/../" + x by {
      JoinCons(d, ["..", x], '/');
      JoinCons("..", [x], '/');
      assert JoinWith([x], '/') == x;
    }
    SplitJoin(parts, '/');
  }

  /** Going into a directory and back up again leads where the rest of
      the name leads. */
  lemma UpAgain(libDir: seq<Node>, d: string, x: string)
    requires PlainName(d) && PlainName(x)
    requires DirectChild(libDir, d, 0) >= 0 && libDir[DirectChild(libDir, d, 0)].Dir?
    ensures DirectPath(libDir, d + "/../" + x) == DirectPath(libDir, x)
  {
    UpAgainSegments(d, x);
    SplitJoin([x], '/');
    var i := DirectChild(libDir, d, 0);
    ChildAddressable(libDir, [], i);
    var parts := [d, "..", x];
    assert parts[1..] == ["..", x] && ["..", x][1..] == [x];
    assert [] + [i] == [i] && [i][..0] == [];
    assert Resolve(libDir, parts, []) == Resolve(libDir, ["..", x], [i]);
    assert Resolve(libDir, ["..", x], [i]) == Resolve(libDir, [x], []);
  }

  /** A direct entry named like the jar shadows a deeper regular file, even
      when the direct entry is a directory. */
  lemma DirectDirectoryShadows(jarName: string)
    requires PlainName(jarName)
    ensures FindJarFile([Dir(jarName, []), Dir("sub", [File(jarName)])], jarName) == Some([0])
  {
    DirectPathPlain([Dir(jarName, []), Dir("sub", [File(jarName)])], jarName);
  }

  /** When `new File(libDir, jarName)` does not exist, the result is a
      regular file with the name and the first in walk order. */
  lemma FindJarFileSearch(libDir: seq<Node>, jarName: string, q: seq<nat>)
    requires DirectPath(libDir, jarName).None?
    requires MatchFrom(libDir, jarName, 0, q)
    ensures FindJarFile(libDir, jarName).Some?
    ensures MatchFrom(libDir, jarName, 0, FindJarFile(libDir, jarName).value)
    ensures !LexLess(q, FindJarFile(libDir, jarName).value)
  {
    FindComplete(libDir, jarName, 0, q);
    FindFirst(libDir, jarName, 0, q);
  }

  // ---------------------------------------------------------------------
  // RuntimeDependencyClassLoader.collectJarUrls

  /** Kotlin's `File.extension`: the text after the last `.`, or "". */
  function Extension(name: string): (r: string)
    ensures '.' !in name ==> r == ""
    ensures '.' in name ==> '.' !in r && EndsWith(name, "." + r)
  {
    var i := LastIndexOf(name, '.');
    if i < 0 then ""
    else
      var r := name[i + 1..];
      assert name[|name| - |"." + r|..] == "." + r;
      r
  }

  /** A regular file whose extension is `jar` in any letter case. */
  predicate IsJar(n: Node) {
    n.File? && EqualsIgnoreCase(Extension(n.name), "jar")
  }

  /** `p` addresses a jar file at or after entry `k`. */
  predicate JarFrom(cs: seq<Node>, k: nat, p: seq<nat>) {
    var n := NodeAt(cs, p);
    n.Some? && IsJar(n.value) && p[0] >= k
  }

  /** Prefixes every path with `k`. */
  function Under(k: nat, ps: seq<seq<nat>>): (r: seq<seq<nat>>)
    ensures |r| == |ps| && forall i :: 0 <= i < |ps| ==> r[i] == [k] + ps[i]
  {
    seq(|ps|, i requires 0 <= i < |ps| => [k] + ps[i])
  }

  /** The jars among the entries from `k` on, in `walkTopDown` order. */
  function Walk(cs: seq<Node>, k: nat): (r: seq<seq<nat>>)
    ensures forall i :: 0 <= i < |r| ==> JarFrom(cs, k, r[i])
    decreases cs, |cs| - k
  {
    if k >= |cs| then []
    else
      var rest := Walk(cs, k + 1);
      LaterJars(cs, k, rest);
      match cs[k]
      case File(_) =>
        if IsJar(cs[k]) then
          assert JarFrom(cs, k, [k]);
          JoinedJars(cs, k, [[k]], rest);
          [[k]] + rest
        else rest
      case Dir(_, sub) =>
        var here := Under(k, Walk(sub, 0));
        NestedJars(cs, k, Walk(sub, 0));
        JoinedJars(cs, k, here, rest);
        here + rest
  }

  lemma LaterJars(cs: seq<Node>, k: nat, ps: seq<seq<nat>>)
    requires forall i :: 0 <= i < |ps| ==> JarFrom(cs, k + 1, ps[i])
    ensures forall i :: 0 <= i < |ps| ==> JarFrom(cs, k, ps[i])
  {
  }

  lemma JoinedJars(cs: seq<Node>, k: nat, a: seq<seq<nat>>, b: seq<seq<nat>>)
    requires forall i :: 0 <= i < |a| ==> JarFrom(cs, k, a[i])
    requires forall i :: 0 <= i < |b| ==> JarFrom(cs, k, b[i])
    ensures forall i :: 0 <= i < |a + b| ==> JarFrom(cs, k, (a + b)[i])
  {
  }

  /** A jar inside directory entry `k` is a jar from `k` on. */
  lemma NestedJars(cs: seq<Node>, k: nat, inner: seq<seq<nat>>)
    requires k < |cs| && cs[k].Dir?
    requires forall i :: 0 <= i < |inner| ==> JarFrom(cs[k].children, 0, inner[i])
    ensures forall i :: 0 <= i < |inner| ==> JarFrom(cs, k, Under(k, inner)[i])
  {
    var here := Under(k, inner);
    forall i | 0 <= i < |inner|
      ensures JarFrom(cs, k, here[i])
    {
      NodeAtShift(cs, k, inner[i]);
    }
  }

  /** Every jar at any depth is collected. */
  lemma {:induction false} WalkComplete(cs: seq<Node>, k: nat, p: seq<nat>)
    requires JarFrom(cs, k, p)
    ensures p in Walk(cs, k)
    decreases cs, |cs| - k
  {
    if p[0] == k && |p| > 1 {
      var q := p[1..];
      assert JarFrom(cs[k].children, 0, q) by {
        assert p == [k] + q;
        NodeAtShift(cs, k, q);
      }
      WalkComplete(cs[k].children, 0, q);
      assert [k] + q in Walk(cs, k) by {
        WalkEntersDirectory(cs, k, q);
      }
      assert p == [k] + q;
    } else if p[0] == k {
      assert p == [k];
      WalkTakesJar(cs, k);
    } else {
      assert p in Walk(cs, k + 1) by {
        WalkComplete(cs, k + 1, p);
      }
      WalkKeepsLater(cs, k, p);
    }
  }

  /** What the walk collects inside directory entry `k` it collects from `k`. */
  lemma WalkEntersDirectory(cs: seq<Node>, k: nat, q: seq<nat>)
    requires k < |cs| && cs[k].Dir? && q in Walk(cs[k].children, 0)
    ensures [k] + q in Walk(cs, k)
  {
    var inner := Walk(cs[k].children, 0);
    var j :| 0 <= j < |inner| && inner[j] == q;
    assert Under(k, inner)[j] == [k] + q;
    assert Walk(cs, k) == Under(k, inner) + Walk(cs, k + 1);
  }

  /** What the walk collects from `k + 1` it also collects from `k`. */
  lemma WalkKeepsLater(cs: seq<Node>, k: nat, p: seq<nat>)
    requires k < |cs| && p in Walk(cs, k + 1)
    ensures p in Walk(cs, k)
  {
  }

  /** The collected jars are in walk order, each once. */
  lemma {:induction false} WalkOrdered(cs: seq<Node>, k: nat)
    ensures forall i, j :: 0 <= i < j < |Walk(cs, k)| ==> LexLess(Walk(cs, k)[i], Walk(cs, k)[j])
    decreases cs, |cs| - k
  {
    if k < |cs| {
      var r := Walk(cs, k);
      var rest := Walk(cs, k + 1);
      WalkOrdered(cs, k + 1);
      if cs[k].Dir? {
        var inner := Walk(cs[k].children, 0);
        WalkOrdered(cs[k].children, 0);
        var here := Under(k, inner);
        assert r == here + rest;
        forall i, j | 0 <= i < j < |r|
          ensures LexLess(r[i], r[j])
        {
          if j < |here| {
            LexLessConsKeeps(k, inner[i], inner[j]);
          } else if i < |here| {
            assert rest[j - |here|][0] >= k + 1;
            HeadLess(r[i], r[j]);
          }
        }
      } else if IsJar(cs[k]) {
        assert r == [[k]] + rest;
        forall i, j | 0 <= i < j < |r|
          ensures LexLess(r[i], r[j])
        {
          if i == 0 {
            assert rest[j - 1][0] >= k + 1;
            HeadLess(r[i], r[j]);
          }
        }
      }
    }
  }

  lemma LexLessConsKeeps(k: nat, a: seq<nat>, b: seq<nat>)
    requires LexLess(a, b)
    ensures LexLess([k] + a, [k] + b)
  {
    var a2, b2 := [k] + a, [k] + b;
    if |a| < |b| && a == b[..|a|] {
      assert a2 == b2[..|a2|];
    } else {
      var i :| 0 <= i < |a| && i < |b| && a[..i] == b[..i] && a[i] < b[i];
      assert a2[..i + 1] == [k] + a[..i] && b2[..i + 1] == [k] + b[..i];
      assert a2[i + 1] == a[i] && b2[i + 1] == b[i];
    }
  }

  lemma HeadLess(a: seq<nat>, b: seq<nat>)
    requires a != [] && b != [] && a[0] < b[0]
    ensures LexLess(a, b)
  {
    assert a[..0] == b[..0];
  }

  /** `collectJarUrls`: nothing unless the library path is an existing
      directory; otherwise every jar file below it, in walk order. */
  function CollectJarUrls(libraryPath: Option<Node>): (r: seq<seq<nat>>)
    ensures libraryPath.None? || libraryPath.value.File? ==> r == []
    ensures libraryPath.Some? && libraryPath.value.Dir? ==>
      forall i :: 0 <= i < |r| ==> JarFrom(libraryPath.value.children, 0, r[i])
  {
    match libraryPath
    case Some(Dir(_, cs)) => Walk(cs, 0)
    case _ => []
  }

  /** A file named `<stem>.JAR` is a jar: the extension is compared without
      regard to case. */
  lemma UpperExtensionIsJar(stem: string)
    requires '.' !in stem
    ensures IsJar(File(stem + ".JAR"))
  {
    var s := stem + ".JAR";
    LastIndexBeforeAt(s, '.', |s|, |stem|);
    assert s[|stem| + 1..] == "JAR";
    assert Lower("JAR") == Lower("jar");
  }

  /** Directories and files without the extension are never collected,
      whatever their name; a file whose extension is `JAR` is. */
  lemma ExtensionCaseInsensitive(lib: string, stem: string, dir: string, bare: string)
    requires '.' !in stem && '.' !in bare
    ensures CollectJarUrls(Some(Dir(lib, [File(stem + ".JAR"), Dir(dir, []), File(bare)]))) == [[0]]
  {
    var cs := [File(stem + ".JAR"), Dir(dir, []), File(bare)];
    assert IsJar(cs[0]) by {
      UpperExtensionIsJar(stem);
    }
    assert !IsJar(cs[2]) by {
      assert Extension(bare) == "";
    }
    assert Walk(cs, 3) == [];
    assert Walk(cs, 2) == [] by {
      WalkSkips(cs, 2);
    }
    assert Walk(cs, 1) == [] by {
      assert Walk([], 0) == [];
      WalkSkips(cs, 1);
    }
    assert Walk(cs, 0) == [[0]] by {
      WalkTakesJar(cs, 0);
    }
  }

  /** An entry that is neither a jar nor a directory with jars adds nothing. */
  lemma WalkSkips(cs: seq<Node>, k: nat)
    requires k < |cs| && !IsJar(cs[k]) && (cs[k].Dir? ==> Walk(cs[k].children, 0) == [])
    ensures Walk(cs, k) == Walk(cs, k + 1)
  {
    if cs[k].Dir? {
      assert Under(k, []) == [];
    }
  }

  /** A jar file is collected before the entries after it. */
  lemma WalkTakesJar(cs: seq<Node>, k: nat)
    requires k < |cs| && IsJar(cs[k])
    ensures Walk(cs, k) == [[k]] + Walk(cs, k + 1)
  {
  }
}
