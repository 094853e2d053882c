/** String operations of Python's `str`. The downloader calls `rsplit(sep, 1)`
    and `split(sep)` itself; `rfind` is what `pathlib`'s `suffix` does inside;
    the ordering `<` on strings is never called by the downloader and serves
    to state when a directory listing is sorted by name. */
module Text {

  /** Index of the last occurrence of `c` in `s`, or -1 when there is none
      (Python's `s.rfind(c)`). */
  function LastIndexOf(s: string, c: char): (r: int)
    ensures -1 <= r < |s|
    ensures r >= 0 ==> s[r] == c
    ensures forall k :: r < k < |s| ==> s[k] != c
  {
    if |s| == 0 then -1
    else if s[|s| - 1] == c then |s| - 1
    else LastIndexOf(s[..|s| - 1], c)
  }

  /** Index of the first occurrence of `c` in `s`, or -1 when there is none
      (Python's `s.find(c)`). */
  function FirstIndexOf(s: string, c: char): (r: int)
    ensures -1 <= r < |s|
    ensures r == -1 ==> c !in s
    ensures r >= 0 ==> s[r] == c && c !in s[..r]
  {
    if |s| == 0 then -1
    else if s[0] == c then 0
    else
      assert s == [s[0]] + s[1..];
      var k := FirstIndexOf(s[1..], c);
      if k == -1 then -1
      else
        assert s[..k + 1] == [s[0]] + s[1..][..k];
        k + 1
  }

  /** Python's `s.rsplit(sep, 1)`: the whole string when `sep` does not occur,
      otherwise the text before and after the LAST `sep`. */
  function RSplitOnce(s: string, sep: char): (parts: seq<string>)
    ensures 1 <= |parts| <= 2
    ensures |parts| == 1 <==> sep !in s
    ensures |parts| == 1 ==> parts[0] == s
    ensures |parts| == 2 ==> parts[0] + [sep] + parts[1] == s && sep !in parts[1]
  {
    var i := LastIndexOf(s, sep);
    if i < 0 then [s]
    else
      assert s == s[..i] + [sep] + s[i + 1..];
      [s[..i], s[i + 1..]]
  }

  /** The inverse of `Split`: the parts glued back together with `sep`
      (Python's `sep.join(parts)`). */
  function Join(parts: seq<string>, sep: char): string
    requires |parts| >= 1
  {
    if |parts| == 1 then parts[0] else parts[0] + [sep] + Join(parts[1..], sep)
  }

  /** Python's `s.split(sep)` with an explicit one-character separator: the
      maximal pieces of `s` free of `sep`, in order, empty pieces included. */
  function Split(s: string, sep: char): (parts: seq<string>)
    ensures |parts| >= 1
    ensures forall k :: 0 <= k < |parts| ==> sep !in parts[k]
    ensures Join(parts, sep) == s
    decreases |s|
  {
    var i := FirstIndexOf(s, sep);
    if i < 0 then [s]
    else
      var rest := Split(s[i + 1..], sep);
      var parts := [s[..i]] + rest;
      assert parts[0] == s[..i] && parts[1..] == rest;
      assert s == s[..i] + [sep] + s[i + 1..];
      assert Join(parts, sep) == s[..i] + [sep] + Join(rest, sep);
      assert sep !in parts[0];
      parts
  }

  /** The first piece of `Split` is the longest prefix of `s` that is free of
      `sep`: it stops at the first `sep` or at the end of `s`. */
  lemma SplitFirstIsPrefix(s: string, sep: char)
    ensures var p := Split(s, sep)[0];
      |p| <= |s| && p == s[..|p|] && sep !in p && (|p| < |s| ==> s[|p|] == sep)
  {
    var parts := Split(s, sep);
    if |parts| > 1 {
      assert s == parts[0] + [sep] + Join(parts[1..], sep);
    }
  }

  /** A prefix of a string free of `c` is free of `c`. */
  lemma PrefixAvoids(p: string, s: string, c: char)
    requires |p| <= |s| && p == s[..|p|] && c !in s
    ensures c !in p
  {
  }

  /** Python's `a < b` on strings: lexicographic order on code points, a proper
      prefix coming first. */
  predicate LexLess(a: string, b: string)
  {
    if |a| == 0 then |b| > 0
    else |b| > 0 && (a[0] < b[0] || (a[0] == b[0] && LexLess(a[1..], b[1..])))
  }

  /** No string is below itself, and no two strings are each below the
      other. */
  lemma {:induction false} LexLessAsymmetric(a: string, b: string)
    ensures !(LexLess(a, b) && LexLess(b, a))
    ensures !LexLess(a, a)
  {
    if |a| > 0 {
      LexLessAsymmetric(a[1..], if |b| > 0 then b[1..] else a[1..]);
    }
  }

  /** `<` on strings is transitive. */
  lemma {:induction false} LexLessTransitive(a: string, b: string, c: string)
    requires LexLess(a, b) && LexLess(b, c)
    ensures LexLess(a, c)
  {
    if |a| > 0 && a[0] == b[0] && b[0] == c[0] {
      LexLessTransitive(a[1..], b[1..], c[1..]);
    }
  }

  /** `<` on strings is total: of two distinct strings, one is below the
      other. With irreflexivity, asymmetry and transitivity this makes it a
      strict total order. */
  lemma {:induction false} LexLessTotal(a: string, b: string)
    ensures a == b || LexLess(a, b) || LexLess(b, a)
  {
    if |a| > 0 && |b| > 0 && a[0] == b[0] {
      LexLessTotal(a[1..], b[1..]);
      assert a == [a[0]] + a[1..] && b == [b[0]] + b[1..];
    }
  }

  /** Appending anything to two strings of the same length keeps their order. */
  lemma {:induction false} LexLessAppend(a: string, b: string, x: string, y: string)
    requires |a| == |b| && LexLess(a, b)
    ensures LexLess(a + x, b + y)
  {
    assert |a| > 0;
    if a[0] == b[0] && !(a[0] < b[0]) {
      assert (a + x)[1..] == a[1..] + x;
      assert (b + y)[1..] == b[1..] + y;
      LexLessAppend(a[1..], b[1..], x, y);
    }
  }

  /** Two strings that differ only in their last character are ordered by it. */
  lemma {:induction false} LexLessLast(p: string, c: char, d: char)
    requires c < d
    ensures LexLess(p + [c], p + [d])
  {
    if |p| > 0 {
      assert (p + [c])[1..] == p[1..] + [c];
      assert (p + [d])[1..] == p[1..] + [d];
      LexLessLast(p[1..], c, d);
    }
  }
}
