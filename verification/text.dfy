/** The string primitives of Kotlin and Java that the plugin's decisions are
    built from, written out so that their edge cases are explicit: Java's
    `trim` (characters up to U+0020) against Kotlin's `trim` (Unicode white
    space), Java's `split` (trailing empty fields dropped) against Kotlin's
    `split` (all fields kept), and `BufferedReader.readLine` line splitting.
    Case mapping is modelled for ASCII letters only. */
module Text {

  // ---------------------------------------------------------------------
  // Prefixes, suffixes, substrings

  predicate StartsWith(s: string, p: string) {
    |p| <= |s| && s[..|p|] == p
  }

  predicate EndsWith(s: string, p: string) {
    |p| <= |s| && s[|s| - |p|..] == p
  }

  /** `p` occurs in `s` starting at index `i`. */
  predicate OccursAt(s: string, p: string, i: int) {
    0 <= i && i + |p| <= |s| && s[i..i + |p|] == p
  }

  /** `s.contains(p)`: `p` occurs in `s` at some index. */
  predicate Contains(s: string, p: string) {
    exists i :: 0 <= i <= |s| && OccursAt(s, p, i)
  }

  /** Whatever is written between two strings is contained in the result. */
  lemma ContainsMiddle(a: string, x: string, b: string)
    ensures Contains(a + x + b, x)
  {
    assert (a + x + b)[|a|..|a| + |x|] == x;
    assert OccursAt(a + x + b, x, |a|);
  }

  /** Both strings written between three others are contained in the result. */
  lemma ContainsSecondAndFourth(a: string, x: string, m: string, y: string, b: string)
    ensures Contains(a + x + m + y + b, x) && Contains(a + x + m + y + b, y)
  {
    ContainsMiddle(a, x, m + y + b);
    assert a + x + m + y + b == a + x + (m + y + b);
    ContainsMiddle(a + x + m, y, b);
  }

  /** Kotlin's `removeSuffix`: drops one occurrence of `suffix` at the end. */
  function RemoveSuffix(s: string, suffix: string): (r: string)
    ensures EndsWith(s, suffix) ==> r + suffix == s
    ensures !EndsWith(s, suffix) ==> r == s
  {
    if EndsWith(s, suffix) then s[..|s| - |suffix|] else s
  }

  // ---------------------------------------------------------------------
  // Character searches (Java's indexOf / lastIndexOf, -1 when absent)

  function IndexOf(s: string, c: char): (r: int)
    ensures -1 <= r < |s|
    ensures r >= 0 ==> s[r] == c && c !in s[..r]
    ensures r < 0 <==> c !in s
  {
    if s == [] then -1
    else if s[0] == c then 0
    else
      var k := IndexOf(s[1..], c);
      assert s[1..][..if k < 0 then 0 else k] == s[1..if k < 0 then 1 else k + 1];
      if k < 0 then -1 else k + 1
  }

  /** `s.lastIndexOf(c, k - 1)`: the greatest index below `k` holding `c`. */
  function LastIndexBefore(s: string, c: char, k: int): (r: int)
    requires 0 <= k <= |s|
    ensures -1 <= r < k
    ensures r >= 0 ==> s[r] == c
    ensures forall j :: r < j < k && 0 <= j ==> s[j] != c
    decreases k
  {
    if k <= 0 then -1
    else if s[k - 1] == c then k - 1
    else LastIndexBefore(s, c, k - 1)
  }

  /** The first occurrence of `c` is at `k` when `c` is at `k` and not before. */
  lemma IndexOfAt(s: string, c: char, k: nat)
    requires k < |s| && s[k] == c && c !in s[..k]
    ensures IndexOf(s, c) == k
  {
    assert c in s[..k + 1] by {
      assert s[..k + 1][k] == c;
    }
  }

  /** The last occurrence of `c` below `k` is at `j` when no `c` lies between. */
  lemma LastIndexBeforeAt(s: string, c: char, k: nat, j: nat)
    requires j < k <= |s| && s[j] == c
    requires forall t :: j < t < k ==> s[t] != c
    ensures LastIndexBefore(s, c, k) == j
  {
  }

  /** `s.lastIndexOf(c)`. */
  function LastIndexOf(s: string, c: char): (r: int)
    ensures -1 <= r < |s|
    ensures r >= 0 ==> s[r] == c
    ensures forall j :: r < j < |s| && 0 <= j ==> s[j] != c
    ensures r < 0 <==> c !in s
  {
    LastIndexBefore(s, c, |s|)
  }

  // ---------------------------------------------------------------------
  // ASCII case mapping and character replacement

  function AsciiLower(c: char): char {
    if 'A' <= c <= 'Z' then (c as int + 32) as char else c
  }

  function AsciiUpper(c: char): char {
    if 'a' <= c <= 'z' then (c as int - 32) as char else c
  }

  /** Kotlin's `lowercase()` restricted to ASCII letters. */
  function Lower(s: string): (r: string)
    ensures |r| == |s| && forall i :: 0 <= i < |s| ==> r[i] == AsciiLower(s[i])
  {
    seq(|s|, i requires 0 <= i < |s| => AsciiLower(s[i]))
  }

  /** Kotlin's `uppercase()` restricted to ASCII letters. */
  function Upper(s: string): (r: string)
    ensures |r| == |s| && forall i :: 0 <= i < |s| ==> r[i] == AsciiUpper(s[i])
  {
    seq(|s|, i requires 0 <= i < |s| => AsciiUpper(s[i]))
  }

  /** `s.replace(from, to)` for one-character strings. */
  function ReplaceChar(s: string, from: char, to: char): (r: string)
    ensures |r| == |s|
    ensures forall i :: 0 <= i < |s| ==> r[i] == if s[i] == from then to else s[i]
  {
    seq(|s|, i requires 0 <= i < |s| => if s[i] == from then to else s[i])
  }

  /** Java's `equalsIgnoreCase` on ASCII letters. */
  predicate EqualsIgnoreCase(a: string, b: string) {
    Lower(a) == Lower(b)
  }

  // ---------------------------------------------------------------------
  // Trimming

  /** Java's `String.trim` drops leading and trailing characters <= U+0020. */
  predicate JavaSpace(c: char) {
    c <= ' '
  }

  /** Kotlin's `Char.isWhitespace`: Java white space plus the Unicode space
      separators (including the no-break spaces). */
  predicate KotlinSpace(c: char) {
    || c == ' ' || c == '\t' || c == '\n' || c == '\U{000B}' || c == '\U{000C}' || c == '\r'
    || ('\U{001C}' <= c <= '\U{001F}')
    || c == '\U{00A0}' || c == '\U{1680}' || ('\U{2000}' <= c <= '\U{200A}')
    || c == '\U{2028}' || c == '\U{2029}' || c == '\U{202F}' || c == '\U{205F}' || c == '\U{3000}'
  }

  function TrimStartJava(s: string): (r: string)
    ensures |r| <= |s| && r == s[|s| - |r|..]
    ensures forall k :: 0 <= k < |s| - |r| ==> JavaSpace(s[k])
    ensures r != [] ==> !JavaSpace(r[0])
  {
    if s != [] && JavaSpace(s[0]) then TrimStartJava(s[1..]) else s
  }

  function TrimEndJava(s: string): (r: string)
    ensures |r| <= |s| && r == s[..|r|]
    ensures forall k :: |r| <= k < |s| ==> JavaSpace(s[k])
    ensures r != [] ==> !JavaSpace(r[|r| - 1])
  {
    if s != [] && JavaSpace(s[|s| - 1]) then TrimEndJava(s[..|s| - 1]) else s
  }

  /** `r` sits at index `i` of `s` with only Java white space around it. */
  predicate JavaPadded(s: string, r: string, i: int) {
    && 0 <= i <= |s| - |r| && s[i..i + |r|] == r
    && (forall k :: 0 <= k < i ==> JavaSpace(s[k]))
    && (forall k :: i + |r| <= k < |s| ==> JavaSpace(s[k]))
  }

  /** Trimming the start and then the end leaves the text padded by
      white space on both sides. */
  lemma JavaTrimmedBothEnds(s: string, t: string, r: string)
    requires |t| <= |s| && t == s[|s| - |t|..]
    requires forall k :: 0 <= k < |s| - |t| ==> JavaSpace(s[k])
    requires |r| <= |t| && r == t[..|r|]
    requires forall k :: |r| <= k < |t| ==> JavaSpace(t[k])
    ensures JavaPadded(s, r, |s| - |t|)
  {
    var i := |s| - |t|;
    assert s[i..i + |r|] == r;
    forall k | i + |r| <= k < |s|
      ensures JavaSpace(s[k])
    {
      assert s[k] == t[k - i];
    }
  }

  /** Java's `String.trim`: the text between the leading and the trailing
      white space. */
  function JavaTrim(s: string): (r: string)
    ensures exists i :: JavaPadded(s, r, i)
    ensures r != [] ==> !JavaSpace(r[0]) && !JavaSpace(r[|r| - 1])
  {
    var t := TrimStartJava(s);
    var r := TrimEndJava(t);
    JavaTrimmedBothEnds(s, t, r);
    r
  }

  /** The contract of `JavaTrim` pins its result: text whose ends are not
      white space, padded with white space, trims to exactly that text. */
  lemma JavaTrimPadded(a: string, t: string, b: string)
    requires forall k :: 0 <= k < |a| ==> JavaSpace(a[k])
    requires forall k :: 0 <= k < |b| ==> JavaSpace(b[k])
    requires t != [] && !JavaSpace(t[0]) && !JavaSpace(t[|t| - 1])
    ensures JavaTrim(a + t + b) == t
  {
    var s := a + t + b;
    var r := JavaTrim(s);
    var i :| JavaPadded(s, r, i);
    assert s[|a|] == t[0] && s[|a| + |t| - 1] == t[|t| - 1];
    assert r != [];
    assert i == |a|;
    assert |r| == |t|;
    assert r == s[|a|..|a| + |t|];
  }

  /** Trimming leaves a string alone whose ends are not white space. */
  lemma JavaTrimIdentity(s: string)
    requires s != [] && !JavaSpace(s[0]) && !JavaSpace(s[|s| - 1])
    ensures JavaTrim(s) == s
  {
  }

  function TrimStartKotlin(s: string): (r: string)
    ensures |r| <= |s| && r == s[|s| - |r|..]
    ensures forall k :: 0 <= k < |s| - |r| ==> KotlinSpace(s[k])
    ensures r != [] ==> !KotlinSpace(r[0])
  {
    if s != [] && KotlinSpace(s[0]) then TrimStartKotlin(s[1..]) else s
  }

  function TrimEndKotlin(s: string): (r: string)
    ensures |r| <= |s| && r == s[..|r|]
    ensures forall k :: |r| <= k < |s| ==> KotlinSpace(s[k])
    ensures r != [] ==> !KotlinSpace(r[|r| - 1])
  {
    if s != [] && KotlinSpace(s[|s| - 1]) then TrimEndKotlin(s[..|s| - 1]) else s
  }

  /** `r` sits at index `i` of `s` with only Kotlin white space around it. */
  predicate KotlinPadded(s: string, r: string, i: int) {
    && 0 <= i <= |s| - |r| && s[i..i + |r|] == r
    && (forall k :: 0 <= k < i ==> KotlinSpace(s[k]))
    && (forall k :: i + |r| <= k < |s| ==> KotlinSpace(s[k]))
  }

  /** Trimming the start and then the end leaves the text padded by
      white space on both sides. */
  lemma KotlinTrimmedBothEnds(s: string, t: string, r: string)
    requires |t| <= |s| && t == s[|s| - |t|..]
    requires forall k :: 0 <= k < |s| - |t| ==> KotlinSpace(s[k])
    requires |r| <= |t| && r == t[..|r|]
    requires forall k :: |r| <= k < |t| ==> KotlinSpace(t[k])
    ensures KotlinPadded(s, r, |s| - |t|)
  {
    var i := |s| - |t|;
    assert s[i..i + |r|] == r;
    forall k | i + |r| <= k < |s|
      ensures KotlinSpace(s[k])
    {
      assert s[k] == t[k - i];
    }
  }

  /** Kotlin's `String.trim()`: the text between the leading and the
      trailing white space, by Kotlin's (Unicode) notion of it. */
  function KotlinTrim(s: string): (r: string)
    ensures exists i :: KotlinPadded(s, r, i)
    ensures r != [] ==> !KotlinSpace(r[0]) && !KotlinSpace(r[|r| - 1])
  {
    var t := TrimStartKotlin(s);
    var r := TrimEndKotlin(t);
    KotlinTrimmedBothEnds(s, t, r);
    r
  }

  /** Kotlin's `trim(vararg chars)`: drops leading and trailing characters
      that belong to `cs`. */
  function TrimChars(s: string, cs: set<char>): (r: string)
    ensures |r| <= |s|
    ensures r != [] ==> r[0] !in cs && r[|r| - 1] !in cs
    decreases |s|
  {
    if s != [] && s[0] in cs then TrimChars(s[1..], cs)
    else if s != [] && s[|s| - 1] in cs then TrimChars(s[..|s| - 1], cs)
    else s
  }

  /** Kotlin's `isBlank`: empty or white space only. */
  predicate IsBlank(s: string) {
    forall i :: 0 <= i < |s| ==> KotlinSpace(s[i])
  }

  // ---------------------------------------------------------------------
  // Splitting and joining on one separator character

  /** `parts.joinToString(sep)`. */
  function JoinWith(parts: seq<string>, sep: char): string {
    if |parts| == 0 then []
    else if |parts| == 1 then parts[0]
    else parts[0] + [sep] + JoinWith(parts[1..], sep)
  }

  /** Kotlin's `split(sep)`: every field, empty ones included. */
  function SplitAll(s: string, sep: char): (r: seq<string>)
    ensures |r| >= 1
    decreases |s|
  {
    var i := IndexOf(s, sep);
    if i < 0 then [s]
    else [s[..i]] + SplitAll(s[i + 1..], sep)
  }

  /** Splitting undoes joining when no part holds the separator. */
  lemma {:induction false} SplitJoin(parts: seq<string>, sep: char)
    requires |parts| >= 1
    requires forall i :: 0 <= i < |parts| ==> sep !in parts[i]
    ensures SplitAll(JoinWith(parts, sep), sep) == parts
  {
    if |parts| > 1 {
      var p0, tail := parts[0], JoinWith(parts[1..], sep);
      var s := p0 + [sep] + tail;
      assert JoinWith(parts, sep) == s;
      assert SplitAll(s, sep) == [p0] + SplitAll(tail, sep) by {
        FirstSeparator(p0, tail, sep);
      }
      SplitJoin(parts[1..], sep);
      assert parts == [p0] + parts[1..];
    }
  }

  /** The first separator after a separator-free field ends that field. */
  lemma FirstSeparator(p0: string, tail: string, sep: char)
    requires sep !in p0
    ensures SplitAll(p0 + [sep] + tail, sep) == [p0] + SplitAll(tail, sep)
  {
    var s := p0 + [sep] + tail;
    assert s[|p0|] == sep;
    assert s[..|p0|] == p0;
    assert s[|p0| + 1..] == tail;
    var i := IndexOf(s, sep);
    assert i <= |p0| by {
      assert sep in s[..|p0| + 1];
    }
    assert i == |p0|;
    SplitAllAt(s, sep, i);
  }

  lemma JoinCons(x: string, t: seq<string>, sep: char)
    requires |t| >= 1
    ensures JoinWith([x] + t, sep) == x + [sep] + JoinWith(t, sep)
  {
    assert ([x] + t)[1..] == t;
  }

  /** Joining the fields of a split gives the string back. */
  lemma {:induction false} JoinSplit(s: string, sep: char)
    ensures JoinWith(SplitAll(s, sep), sep) == s
    decreases |s|
  {
    var i := IndexOf(s, sep);
    if i >= 0 {
      JoinSplit(s[i + 1..], sep);
      JoinSplitStep(s, sep, i);
    }
  }

  /** One field and the separator in front of the rejoined rest. */
  lemma JoinSplitStep(s: string, sep: char, i: nat)
    requires i < |s| && i == IndexOf(s, sep)
    requires JoinWith(SplitAll(s[i + 1..], sep), sep) == s[i + 1..]
    ensures JoinWith(SplitAll(s, sep), sep) == s
  {
    var t := SplitAll(s[i + 1..], sep);
    SplitAllAt(s, sep, i);
    JoinCons(s[..i], t, sep);
    SliceAround(s, i);
  }

  /** The first field is cut at the first separator. */
  lemma SplitAllAt(s: string, sep: char, i: nat)
    requires i < |s| && i == IndexOf(s, sep)
    ensures SplitAll(s, sep) == [s[..i]] + SplitAll(s[i + 1..], sep)
  {
    var front, rest := s[..i], SplitAll(s[i + 1..], sep);
    assert SplitAll(s, sep) == [front] + rest;
  }

  /** A split has one field exactly when the separator does not occur. */
  lemma SplitAllLength(s: string, sep: char)
    ensures |SplitAll(s, sep)| == 1 <==> sep !in s
  {
    var i := IndexOf(s, sep);
    if i >= 0 {
      SplitAllAt(s, sep, i);
    }
  }

  /** No field of a split holds the separator. */
  lemma {:induction false} SplitAllFieldsFree(s: string, sep: char)
    ensures forall i :: 0 <= i < |SplitAll(s, sep)| ==> sep !in SplitAll(s, sep)[i]
    decreases |s|
  {
    var i := IndexOf(s, sep);
    if i >= 0 {
      SplitAllFieldsFree(s[i + 1..], sep);
      SplitAllAt(s, sep, i);
    }
  }

  /** A string is the text before and after one of its characters, with
      the character in between. */
  lemma SliceAround(s: string, i: nat)
    requires i < |s|
    ensures s[..i] + [s[i]] + s[i + 1..] == s
  {
  }

  /** A join of two or more parts ends with the separator and the last part. */
  lemma {:induction false} JoinLast(parts: seq<string>, sep: char)
    requires |parts| >= 2
    ensures JoinWith(parts[..|parts| - 1], sep) + [sep] + parts[|parts| - 1] == JoinWith(parts, sep)
    decreases |parts|
  {
    var front := parts[..|parts| - 1];
    if |parts| == 2 {
      assert front == [parts[0]];
    } else {
      var tail := parts[1..];
      JoinLast(tail, sep);
      assert front == [parts[0]] + tail[..|tail| - 1];
      JoinCons(parts[0], tail[..|tail| - 1], sep);
      JoinCons(parts[0], tail, sep);
      assert parts == [parts[0]] + tail;
    }
  }

  /** A join of two or more parts opens with the first part and a
      separator and closes with a separator and the last part. */
  lemma JoinEnds(parts: seq<string>, sep: char)
    requires |parts| >= 2
    ensures StartsWith(JoinWith(parts, sep), parts[0] + [sep])
    ensures EndsWith(JoinWith(parts, sep), [sep] + parts[|parts| - 1])
  {
    var r := JoinWith(parts, sep);
    var last := parts[|parts| - 1];
    JoinLast(parts, sep);
    assert r[|r| - |last| - 1..] == [sep] + last;
  }

  /** The fields before the last one, joined again, are the text before
      the last separator. */
  lemma JoinSplitLast(s: string, sep: char)
    requires sep in s
    ensures var p := SplitAll(s, sep);
      JoinWith(p[..|p| - 1], sep) + [sep] + p[|p| - 1] == s
  {
    var p := SplitAll(s, sep);
    assert |p| >= 2 by {
      SplitAllLength(s, sep);
    }
    assert JoinWith(p, sep) == s by {
      JoinSplit(s, sep);
    }
    JoinLastOf(p, s, sep);
  }

  lemma JoinLastOf(parts: seq<string>, s: string, sep: char)
    requires |parts| >= 2 && JoinWith(parts, sep) == s
    ensures JoinWith(parts[..|parts| - 1], sep) + [sep] + parts[|parts| - 1] == s
  {
    JoinLast(parts, sep);
  }

  /** Splitting a string at an occurrence of `c` after which `c` no longer
      occurs finds the text before the last `c`. */
  lemma BeforeLastUnique(s: string, c: char, a: string, b: string)
    requires s == a + [c] + b && c !in b
    ensures SubstringBeforeLast(s, c) == a
  {
    var r := SubstringBeforeLast(s, c);
    assert s[|a|] == c;
    assert s[|a| + 1..] == b;
    assert |r| == |a|;
  }

  /** Trimming keeps a prefix that starts and ends with non-white-space. */
  lemma KotlinTrimKeepsPrefix(s: string, p: string)
    requires StartsWith(s, p) && p != []
    requires !KotlinSpace(p[0]) && !KotlinSpace(p[|p| - 1])
    ensures StartsWith(KotlinTrim(s), p)
  {
    var t := TrimStartKotlin(s);
    assert |t| == |s| by { assert s[0] == p[0]; }
    var r := TrimEndKotlin(t);
    assert |r| >= |p| by { assert s[|p| - 1] == p[|p| - 1]; }
    assert r[..|p|] == s[..|p|];
  }

  /** Drops empty strings at the end of a list. */
  function DropTrailingEmpty(parts: seq<string>): (r: seq<string>)
    ensures |r| <= |parts| && r == parts[..|r|]
    ensures r != [] ==> r[|r| - 1] != []
    ensures forall i :: |r| <= i < |parts| ==> parts[i] == []
  {
    if parts != [] && parts[|parts| - 1] == [] then DropTrailingEmpty(parts[..|parts| - 1])
    else parts
  }

  /** Java's `String.split(sep)` for a one-character, non-regex separator:
      a string without the separator (the empty string included) yields
      itself; otherwise the fields between separators, with the empty ones
      at the end removed. */
  function JavaSplit(s: string, sep: char): (r: seq<string>)
    ensures sep !in s ==> r == [s]
    ensures forall i :: 0 <= i < |r| ==> sep !in r[i]
    ensures sep in s && r != [] ==> r[|r| - 1] != []
    ensures sep in s ==> |r| <= |SplitAll(s, sep)| && r == SplitAll(s, sep)[..|r|]
  {
    SplitAllFieldsFree(s, sep);
    if sep !in s then [s]
    else
      DropTrailingEmpty(SplitAll(s, sep))
  }

  /** `n` copies of `c`. */
  function Repeat(c: char, n: nat): (r: string)
    ensures |r| == n && forall k :: 0 <= k < n ==> r[k] == c
  {
    seq(n, k => c)
  }

  /** Joining fields of which all from `n` on are empty gives the join of
      the first `n` followed by one separator per dropped field. */
  lemma {:induction false} JoinDropEmpty(parts: seq<string>, n: nat, sep: char)
    requires 1 <= n <= |parts|
    requires forall i :: n <= i < |parts| ==> parts[i] == []
    ensures JoinWith(parts, sep) == JoinWith(parts[..n], sep) + Repeat(sep, |parts| - n)
    decreases |parts|
  {
    if n < |parts| {
      var front := parts[..|parts| - 1];
      JoinLast(parts, sep);
      JoinDropEmpty(front, n, sep);
      assert front[..n] == parts[..n];
      assert Repeat(sep, |front| - n) + [sep] + [] == Repeat(sep, |parts| - n);
    } else {
      assert parts[..n] == parts;
    }
  }

  /** What Java's split throws away is only separators: the kept fields
      joined again, followed by the dropped separators, give back the
      string; when no field is kept the string is separators only. */
  lemma JavaSplitRejoin(s: string, sep: char)
    ensures var r := JavaSplit(s, sep);
      && (r != [] ==> JoinWith(r, sep) + Repeat(sep, |SplitAll(s, sep)| - |r|) == s)
      && (r == [] ==> forall k :: 0 <= k < |s| ==> s[k] == sep)
  {
    var r := JavaSplit(s, sep);
    var all := SplitAll(s, sep);
    JoinSplit(s, sep);
    if sep !in s {
      assert Repeat(sep, |all| - |r|) == [] by { SplitJoin([s], sep); }
    } else if r != [] {
      JoinDropEmpty(all, |r|, sep);
    } else {
      assert all[0] == [] by { SplitAllLength(s, sep); }
      JoinDropEmpty(all, 1, sep);
      assert all[..1] == [all[0]];
    }
  }

  /** Kotlin's `substringBeforeLast(c)`: the text before the last `c`, or
      the whole string when `c` does not occur. */
  function SubstringBeforeLast(s: string, c: char): (r: string)
    ensures c in s ==> |r| < |s| && r == s[..|r|] && s[|r|] == c && c !in s[|r| + 1..]
    ensures c !in s ==> r == s
  {
    var i := LastIndexOf(s, c);
    if i < 0 then s else s[..i]
  }

  /** The first index at or after `k` where `p` occurs, or -1. */
  function IndexOfFrom(s: string, p: string, k: nat): (r: int)
    ensures r >= 0 ==> k <= r && OccursAt(s, p, r)
    ensures r >= 0 ==> forall j :: k <= j < r ==> !OccursAt(s, p, j)
    ensures r < 0 ==> r == -1 && forall j :: k <= j ==> !OccursAt(s, p, j)
    decreases |s| - k
  {
    if k + |p| > |s| then -1
    else if s[k..k + |p|] == p then k
    else IndexOfFrom(s, p, k + 1)
  }

  /** Kotlin's `substringAfter(d)`: the text after the first `d`, or the
      whole string when `d` does not occur. */
  function SubstringAfter(s: string, d: string): (r: string)
    ensures !Contains(s, d) ==> r == s
    ensures Contains(s, d) ==> exists i :: OccursAt(s, d, i) && (forall j :: 0 <= j < i ==> !OccursAt(s, d, j)) && r == s[i + |d|..]
  {
    var i := IndexOfFrom(s, d, 0);
    if i < 0 then s else s[i + |d|..]
  }

  /** Leading white space before a non-white-space character is dropped
      exactly. */
  lemma TrimStartSpaces(a: string, t: string)
    requires forall i :: 0 <= i < |a| ==> KotlinSpace(a[i])
    requires t != [] && !KotlinSpace(t[0])
    ensures TrimStartKotlin(a + t) == t
  {
    var s := a + t;
    var u := TrimStartKotlin(s);
    assert forall k :: 0 <= k < |a| ==> s[k] == a[k];
    assert s[|a|] == t[0];
    assert |s| - |u| <= |a|;
    assert |s| - |u| >= |a|;
  }

  /** Text that starts with a key after white space still starts with the
      key once trimmed, when the key's ends are not white space. */
  lemma TrimKeepsKeyAfterSpaces(ws: string, key: string, rest: string)
    requires forall i :: 0 <= i < |ws| ==> KotlinSpace(ws[i])
    requires key != [] && !KotlinSpace(key[0]) && !KotlinSpace(key[|key| - 1])
    ensures StartsWith(KotlinTrim(ws + key + rest), key)
  {
    var body := key + rest;
    assert ws + key + rest == ws + body;
    assert body[0] == key[0];
    TrimStartSpaces(ws, body);
    assert [] + body == body;
    TrimStartSpaces([], body);
    assert StartsWith(body, key) by {
      assert body[..|key|] == key;
    }
    KotlinTrimKeepsPrefix(body, key);
  }

  /** Trailing white space after a non-white-space character is dropped
      exactly. */
  lemma TrimEndSpaces(t: string, b: string)
    requires forall i :: 0 <= i < |b| ==> KotlinSpace(b[i])
    requires t != [] && !KotlinSpace(t[|t| - 1])
    ensures TrimEndKotlin(t + b) == t
  {
    var u := t + b;
    var r := TrimEndKotlin(u);
    assert forall k :: |t| <= k < |u| ==> u[k] == b[k - |t|];
    assert u[|t| - 1] == t[|t| - 1];
    assert |r| >= |t|;
    assert |r| <= |t|;
  }

  /** Kotlin's trim removes exactly the white space around text whose ends
      are not white space. */
  lemma KotlinTrimPadded(a: string, t: string, b: string)
    requires forall i :: 0 <= i < |a| ==> KotlinSpace(a[i])
    requires forall i :: 0 <= i < |b| ==> KotlinSpace(b[i])
    requires t != [] && !KotlinSpace(t[0]) && !KotlinSpace(t[|t| - 1])
    ensures KotlinTrim(a + t + b) == t
  {
    assert a + t + b == a + (t + b);
    assert (t + b)[0] == t[0];
    TrimStartSpaces(a, t + b);
    TrimEndSpaces(t, b);
  }

  // ---------------------------------------------------------------------
  // Lines

  predicate LineBreak(c: char) {
    c == '\n' || c == '\r'
  }

  predicate NoLineBreak(s: string) {
    '\n' !in s && '\r' !in s
  }

  function LineEnd(t: string): (r: nat)
    ensures r <= |t|
    ensures forall k :: 0 <= k < r ==> !LineBreak(t[k])
    ensures r < |t| ==> LineBreak(t[r])
  {
    if t == [] || LineBreak(t[0]) then 0 else 1 + LineEnd(t[1..])
  }

  /** The lines `BufferedReader.readLine` (and Kotlin's `readLines`) yields:
      a line ends at `\n`, `\r` or `\r\n`; text after the last terminator is
      a final line only when it is not empty. */
  function ReadLines(t: string): (r: seq<string>)
    ensures forall i :: 0 <= i < |r| ==> NoLineBreak(r[i])
    decreases |t|
  {
    if t == [] then []
    else
      var i := LineEnd(t);
      if i == |t| then [t]
      else if t[i] == '\r' && i + 1 < |t| && t[i + 1] == '\n' then [t[..i]] + ReadLines(t[i + 2..])
      else [t[..i]] + ReadLines(t[i + 1..])
  }

  /** `lines.joinToString("\n")`. */
  function JoinLines(lines: seq<string>): string {
    JoinWith(lines, '\n')
  }

  /** A line ended by `\n` is read as one line. */
  lemma ReadLinesCons(x: string, rest: string)
    requires NoLineBreak(x)
    ensures ReadLines(x + "\n" + rest) == [x] + ReadLines(rest)
  {
    var t := x + "\n" + rest;
    assert forall k :: 0 <= k < |x| ==> t[k] == x[k];
    assert t[|x|] == '\n';
    assert LineEnd(t) == |x|;
    assert t[..|x|] == x;
    assert t[|x| + 1..] == rest;
  }

  /** Writing lines joined by `\n` and reading them back gives the same
      lines, provided no line holds a terminator and the last line is not
      empty (a trailing empty line would vanish on reading). */
  lemma {:induction false} ReadJoinedLines(lines: seq<string>)
    requires forall i :: 0 <= i < |lines| ==> NoLineBreak(lines[i])
    requires lines != [] ==> lines[|lines| - 1] != []
    ensures ReadLines(JoinLines(lines)) == lines
  {
    if |lines| == 1 {
      var t := lines[0];
      assert forall k :: 0 <= k < |t| ==> !LineBreak(t[k]);
    } else if |lines| > 1 {
      var t := JoinLines(lines);
      var l0 := lines[0];
      var rest := JoinLines(lines[1..]);
      assert t == l0 + ['\n'] + rest;
      assert forall k :: 0 <= k < |l0| ==> !LineBreak(t[k]);
      assert LineBreak(t[|l0|]);
      assert LineEnd(t) == |l0|;
      assert t[..|l0|] == l0;
      assert t[|l0| + 1..] == rest;
      ReadJoinedLines(lines[1..]);
    }
  }

  // ---------------------------------------------------------------------
  // Numbers

  function DigitChar(d: nat): (c: char)
    requires d < 10
    ensures '0' <= c <= '9'
  {
    "0123456789"[d]
  }

  /** Decimal rendering of a non-negative number, as string templates do. */
  function NatToString(n: nat): (r: string)
    ensures r != []
    ensures forall i :: 0 <= i < |r| ==> '0' <= r[i] <= '9'
  {
    if n < 10 then [DigitChar(n)] else NatToString(n / 10) + [DigitChar(n % 10)]
  }
}
