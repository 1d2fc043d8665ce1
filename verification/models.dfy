/** The records the build-time side of the plugin passes between its steps,
    for both generations of the plugin, and the insertion-ordered map
    (Kotlin's `mutableMapOf`, a `LinkedHashMap`) they are collected in. */
module Models {
  import opened Common

  /** A repository as the current plugin records it. The two property
      fields name the Gradle/system properties holding credentials; they
      are null when the repository needs none. */
  datatype RepositoryInfo = RepositoryInfo(
    name: string,
    url: string,
    usernameProperty: Option<string>,
    passwordProperty: Option<string>,
    isMavenCentral: bool)

  /** A resolved dependency coordinate with the repository it is fetched from. */
  datatype DependencyInfo = DependencyInfo(
    groupId: string,
    artifactId: string,
    version: string,
    repository: RepositoryInfo)

  /** The older plugin's repository record: one extra flag for file-system
      (Maven-local) repositories. */
  datatype LegacyRepositoryInfo = LegacyRepositoryInfo(
    name: string,
    url: string,
    usernameProperty: Option<string>,
    passwordProperty: Option<string>,
    isMavenCentral: bool,
    isMavenLocal: bool)

  /** The older plugin's dependency record. */
  datatype LegacyDependencyInfo = LegacyDependencyInfo(
    groupId: string,
    artifactId: string,
    version: string,
    repository: LegacyRepositoryInfo,
    isFromMavenLocal: bool)

  /** The identity Gradle reports for one resolved artifact. */
  datatype ArtifactId = ArtifactId(group: string, name: string, version: string)

  // ---------------------------------------------------------------------
  // Insertion-ordered maps

  /** A `LinkedHashMap` as its entry list in iteration order. */
  type OrderedMap<K, V> = seq<(K, V)>

  function Keys<K, V>(m: OrderedMap<K, V>): (r: seq<K>)
    ensures |r| == |m| && forall i :: 0 <= i < |m| ==> r[i] == m[i].0
  {
    seq(|m|, i requires 0 <= i < |m| => m[i].0)
  }

  /** `m.values` in iteration order. */
  function Values<K, V>(m: OrderedMap<K, V>): (r: seq<V>)
    ensures |r| == |m| && forall i :: 0 <= i < |m| ==> r[i] == m[i].1
  {
    seq(|m|, i requires 0 <= i < |m| => m[i].1)
  }

  /** No key is listed twice, as in any `Map`. */
  predicate UniqueKeys<K(==), V>(m: OrderedMap<K, V>) {
    forall i, j :: 0 <= i < j < |m| ==> m[i].0 != m[j].0
  }

  /** `m[k]`: the value bound to `k`, or null. */
  function Lookup<K(==), V>(m: OrderedMap<K, V>, k: K): (r: Option<V>)
    ensures r.None? <==> k !in Keys(m)
    ensures r.Some? ==> exists i :: 0 <= i < |m| && m[i] == (k, r.value)
  {
    if m == [] then None
    else if m[0].0 == k then Some(m[0].1)
    else
      var r := Lookup(m[1..], k);
      assert Keys(m) == [m[0].0] + Keys(m[1..]);
      assert r.Some? ==> exists i :: 0 <= i < |m[1..]| && m[1..][i] == (k, r.value);
      r
  }

  /** In a map without repeated keys, the lookup finds the one entry. */
  lemma {:induction false} LookupAt<K, V>(m: OrderedMap<K, V>, i: nat)
    requires UniqueKeys(m) && i < |m|
    ensures Lookup(m, m[i].0) == Some(m[i].1)
  {
    if i > 0 {
      assert m[1..][i - 1] == m[i];
      LookupAt(m[1..], i - 1);
    }
  }

  /** The position of key `k`, or -1. */
  function KeyIndex<K(==), V>(m: OrderedMap<K, V>, k: K): (i: int)
    ensures -1 <= i < |m|
    ensures i >= 0 ==> m[i].0 == k
    ensures i < 0 <==> k !in Keys(m)
  {
    if m == [] then -1
    else if m[0].0 == k then 0
    else
      var j := KeyIndex(m[1..], k);
      assert Keys(m) == [m[0].0] + Keys(m[1..]);
      if j < 0 then -1 else j + 1
  }

  /** `m[k] = v` on a `LinkedHashMap`: an existing key keeps its position
      and takes the new value; a new key is appended. */
  function Put<K(==), V>(m: OrderedMap<K, V>, k: K, v: V): (r: OrderedMap<K, V>)
    requires UniqueKeys(m)
    ensures UniqueKeys(r)
    ensures k in Keys(m) ==> |r| == |m| && Keys(r) == Keys(m)
    ensures k !in Keys(m) ==> r == m + [(k, v)]
    ensures forall i :: 0 <= i < |m| && m[i].0 != k ==> r[i] == m[i]
    ensures forall i :: 0 <= i < |r| ==> r[i] == (k, v) || (i < |m| && r[i] == m[i] && m[i].0 != k)
    ensures Lookup(r, k) == Some(v)
  {
    var i := KeyIndex(m, k);
    var r := if i < 0 then m + [(k, v)] else m[i := (k, v)];
    LookupAt(r, if i < 0 then |m| else i);
    r
  }

  /** Putting into an empty map, and again under the same key. */
  lemma PutSingle<K, V>(k: K, v1: V, v2: V)
    ensures Put([], k, v1) == [(k, v1)]
    ensures Put([(k, v1)], k, v2) == [(k, v2)]
  {
    var e: OrderedMap<K, V> := [];
    assert k !in Keys(e);
    var m := [(k, v1)];
    assert Keys(m)[0] == k;
    var r := Put(m, k, v2);
    assert |r| == 1 && r[0] == (k, v2);
  }

  // ---------------------------------------------------------------------
  // First occurrence of a key

  /** Some element before position `n` has key `k`. */
  predicate KeyBefore<T>(xs: seq<T>, key: T -> string, k: string, n: nat)
    requires n <= |xs|
  {
    exists j :: 0 <= j < n && key(xs[j]) == k
  }

  /** `xs[i]` is the first element with its key. */
  predicate FirstOfKey<T>(xs: seq<T>, key: T -> string, i: nat)
    requires i < |xs|
  {
    !KeyBefore(xs, key, key(xs[i]), i)
  }

  /** Kotlin's `distinctBy(key)`: the first element of every key, in order. */
  function DistinctBy<T(==)>(xs: seq<T>, key: T -> string): (r: seq<T>)
    ensures forall i, j :: 0 <= i < j < |r| ==> key(r[i]) != key(r[j])
    ensures forall i :: 0 <= i < |xs| && FirstOfKey(xs, key, i) ==> xs[i] in r
    ensures forall x :: x in r ==> exists i :: 0 <= i < |xs| && FirstOfKey(xs, key, i) && xs[i] == x
    decreases |xs|
  {
    if xs == [] then []
    else
      var n := |xs| - 1;
      var d := DistinctBy(xs[..n], key);
      DistinctByKeys(xs, key, xs[..n], d);
      if exists j :: 0 <= j < |d| && key(d[j]) == key(xs[n]) then d else d + [xs[n]]
  }

  /** The facts about the prefix's result carry over to the whole list. */
  lemma DistinctByKeys<T>(xs: seq<T>, key: T -> string, p: seq<T>, d: seq<T>)
    requires xs != [] && p == xs[..|xs| - 1]
    requires forall i :: 0 <= i < |p| && FirstOfKey(p, key, i) ==> p[i] in d
    requires forall x :: x in d ==> exists i :: 0 <= i < |p| && FirstOfKey(p, key, i) && p[i] == x
    ensures forall i :: 0 <= i < |xs| - 1 && FirstOfKey(xs, key, i) ==> xs[i] in d
    ensures forall x :: x in d ==> exists i :: 0 <= i < |xs| - 1 && FirstOfKey(xs, key, i) && xs[i] == x
    ensures (exists j :: 0 <= j < |d| && key(d[j]) == key(xs[|xs| - 1])) <==> !FirstOfKey(xs, key, |xs| - 1)
  {
    var n := |xs| - 1;
    assert forall i :: 0 <= i < n ==> p[i] == xs[i];
    assert forall i :: 0 <= i < n ==> (FirstOfKey(p, key, i) <==> FirstOfKey(xs, key, i)) by {
      forall i | 0 <= i < n
        ensures FirstOfKey(p, key, i) <==> FirstOfKey(xs, key, i)
      {
        if KeyBefore(xs, key, key(xs[i]), i) {
          var j :| 0 <= j < i && key(xs[j]) == key(xs[i]);
          assert key(p[j]) == key(p[i]);
        }
      }
    }
    if exists j :: 0 <= j < |d| && key(d[j]) == key(xs[n]) {
      var j :| 0 <= j < |d| && key(d[j]) == key(xs[n]);
      assert d[j] in d;
      var i :| 0 <= i < n && FirstOfKey(p, key, i) && p[i] == d[j];
      assert key(xs[i]) == key(xs[n]);
    }
    if KeyBefore(xs, key, key(xs[n]), n) {
      var j :| 0 <= j < n && key(xs[j]) == key(xs[n]);
      FirstOfKeyExists(xs, key, j);
      var i :| 0 <= i <= j && FirstOfKey(xs, key, i) && key(xs[i]) == key(xs[j]);
      assert FirstOfKey(p, key, i);
      assert xs[i] in d;
      var k :| 0 <= k < |d| && d[k] == xs[i];
    }
  }

  /** Every key has a first element. */
  lemma {:induction false} FirstOfKeyExists<T>(xs: seq<T>, key: T -> string, j: nat)
    requires j < |xs|
    ensures exists i :: 0 <= i <= j && FirstOfKey(xs, key, i) && key(xs[i]) == key(xs[j])
    decreases j
  {
    if !FirstOfKey(xs, key, j) {
      var k :| 0 <= k < j && key(xs[k]) == key(xs[j]);
      FirstOfKeyExists(xs, key, k);
    }
  }

  /** The result for a prefix is a prefix of the result: elements are kept
      in the order their keys first appear. */
  lemma {:induction false} DistinctByPrefix<T>(xs: seq<T>, key: T -> string, n: nat)
    requires n <= |xs|
    ensures var d := DistinctBy(xs[..n], key);
      |d| <= |DistinctBy(xs, key)| && DistinctBy(xs, key)[..|d|] == d
    decreases |xs|
  {
    if n < |xs| {
      var front := xs[..|xs| - 1];
      assert front[..n] == xs[..n];
      DistinctByPrefix(front, key, n);
    } else {
      assert xs[..n] == xs;
    }
  }

  /** The keys that occur in `xs`. */
  function KeySet<T>(xs: seq<T>, key: T -> string): set<string> {
    set i | 0 <= i < |xs| :: key(xs[i])
  }

  lemma KeySetSnoc<T>(xs: seq<T>, key: T -> string)
    requires xs != []
    ensures KeySet(xs, key) == KeySet(xs[..|xs| - 1], key) + {key(xs[|xs| - 1])}
    ensures key(xs[|xs| - 1]) in KeySet(xs[..|xs| - 1], key) <==> KeyBefore(xs, key, key(xs[|xs| - 1]), |xs| - 1)
  {
    var n := |xs| - 1;
    var front := xs[..n];
    forall k | k in KeySet(xs, key)
      ensures k in KeySet(front, key) + {key(xs[n])}
    {
      var i :| 0 <= i < |xs| && key(xs[i]) == k;
      if i < n {
        assert front[i] == xs[i];
      }
    }
    forall k | k in KeySet(front, key)
      ensures k in KeySet(xs, key)
    {
      var i :| 0 <= i < |front| && key(front[i]) == k;
      assert xs[i] == front[i];
    }
    if key(xs[n]) in KeySet(front, key) {
      var i :| 0 <= i < |front| && key(front[i]) == key(xs[n]);
      assert xs[i] == front[i];
    }
    if KeyBefore(xs, key, key(xs[n]), n) {
      var i :| 0 <= i < n && key(xs[i]) == key(xs[n]);
      assert front[i] == xs[i];
    }
  }

  /** One element is kept per key, so the result is as long as there are
      distinct keys. */
  lemma {:induction false} DistinctByCount<T>(xs: seq<T>, key: T -> string)
    ensures |DistinctBy(xs, key)| == |KeySet(xs, key)|
    decreases |xs|
  {
    if xs != [] {
      var n := |xs| - 1;
      var front := xs[..n];
      DistinctByCount(front, key);
      KeySetSnoc(xs, key);
      var d := DistinctBy(front, key);
      DistinctByKeys(xs, key, front, d);
      if KeyBefore(xs, key, key(xs[n]), n) {
        assert DistinctBy(xs, key) == d;
      } else {
        assert DistinctBy(xs, key) == d + [xs[n]];
      }
    }
  }
}
