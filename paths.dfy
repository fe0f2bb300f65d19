/**
 * The POSIX path and string primitives the configuration generator relies
 * on: `os.path.splitext`, `os.path.join` with two arguments and `str.lower`.
 */
module Paths {

  /** The last position of `c` in `s`, or -1 when `c` does not occur. */
  function LastIndex(s: string, c: char): (r: int)
    ensures -1 <= r < |s|
    ensures r >= 0 ==> s[r] == c
    ensures forall k :: r < k < |s| ==> s[k] != c
  {
    if s == [] then -1
    else if s[|s| - 1] == c then |s| - 1
    else LastIndex(s[..|s| - 1], c)
  }

  /** `c` does not occur in `s` exactly when its last position is -1. */
  lemma LastIndexAbsent(s: string, c: char)
    ensures LastIndex(s, c) == -1 <==> c !in s
  {
  }

  /** Appending text without `c` leaves the last position of `c` where it was. */
  lemma {:induction false} LastIndexAppendWithout(s: string, t: string, c: char)
    requires c !in t
    ensures LastIndex(s + t, c) == LastIndex(s, c)
  {
    if t == [] {
      assert s + t == s;
    } else {
      var t' := t[..|t| - 1];
      assert (s + t)[..|s + t| - 1] == s + t';
      LastIndexAppendWithout(s, t', c);
    }
  }

  /** Appending text that holds `c` moves the last position of `c` into that text. */
  lemma {:induction false} LastIndexAppendWith(s: string, t: string, c: char)
    requires c in t
    ensures LastIndex(s + t, c) == |s| + LastIndex(t, c)
  {
    var t' := t[..|t| - 1];
    assert t == t' + [t[|t| - 1]];
    if t[|t| - 1] != c {
      assert (s + t)[..|s + t| - 1] == s + t';
      LastIndexAppendWith(s, t', c);
    }
  }

  /**
   * `os.path.splitext`: the extension runs from the last dot of the final
   * path component to the end, provided that component has a character
   * other than a dot before it (leading dots do not start an extension);
   * otherwise the extension is empty. Returns `(root, ext)`.
   */
  function SplitExt(p: string): (parts: (string, string))
    ensures parts.0 + parts.1 == p
    ensures parts.1 == [] || (parts.1[0] == '.' && '.' !in parts.1[1..] && '/' !in parts.1)
  {
    var sep := LastIndex(p, '/');
    var dot := LastIndex(p, '.');
    if dot > sep && NonDotBetween(p, sep, dot) then
      var ext := p[dot..];
      assert forall k :: 0 <= k < |ext| ==> ext[k] == p[dot + k];
      (p[..dot], ext)
    else (p, "")
  }

  /** Some character strictly between positions `lo` and `hi` of `p` is not a dot. */
  predicate NonDotBetween(p: string, lo: int, hi: int)
    requires -1 <= lo && hi <= |p|
  {
    exists k :: lo < k < hi && p[k] != '.'
  }

  /** Prefixing `q` shifts the positions `NonDotBetween` looks at by `|q|`. */
  lemma NonDotBetweenShift(q: string, name: string, lo: int, hi: int)
    requires -1 <= lo && hi <= |name|
    ensures NonDotBetween(q + name, |q| + lo, |q| + hi) == NonDotBetween(name, lo, hi)
  {
    var p := q + name;
    if NonDotBetween(name, lo, hi) {
      var k :| lo < k < hi && name[k] != '.';
      assert p[|q| + k] == name[k];
    }
    if NonDotBetween(p, |q| + lo, |q| + hi) {
      var k :| |q| + lo < k < |q| + hi && p[k] != '.';
      assert name[k - |q|] == p[k];
    }
  }

  /**
   * A dot followed by neither a dot nor a separator, with a non-dot between
   * it and the last separator, splits the path there.
   */
  lemma SplitExtAt(p: string, d: int)
    requires 0 <= d < |p| && p[d] == '.'
    requires forall k :: d < k < |p| ==> p[k] != '.' && p[k] != '/'
    requires exists k :: LastIndex(p, '/') < k < d && p[k] != '.'
    ensures SplitExt(p) == (p[..d], p[d..])
  {
    assert LastIndex(p, '.') == d;
  }

  /** The positions of `stem + "." + suffix`: the stem, then the dot, then the suffix. */
  lemma DotJoined(stem: string, suffix: string)
    ensures var p := stem + "." + suffix;
      p[..|stem|] == stem && p[|stem|..] == "." + suffix && p[|stem|] == '.' &&
      (forall k :: 0 <= k < |stem| ==> p[k] == stem[k]) &&
      (forall k :: |stem| < k < |p| ==> p[k] == suffix[k - |stem| - 1])
  {
    var p := stem + "." + suffix;
    assert p == stem + ("." + suffix);
  }

  /** Splitting a name built as `stem + "." + suffix` recovers the stem and the suffix. */
  lemma SplitExtOfParts(stem: string, suffix: string)
    requires '.' !in suffix && '/' !in suffix
    requires exists k :: LastIndex(stem, '/') < k < |stem| && stem[k] != '.'
    ensures SplitExt(stem + "." + suffix) == (stem, "." + suffix)
  {
    var p := stem + "." + suffix;
    DotJoined(stem, suffix);
    LastIndexAppendWithout(stem, "." + suffix, '/');
    assert stem + ("." + suffix) == p;
    var k :| LastIndex(stem, '/') < k < |stem| && stem[k] != '.';
    SplitExtAt(p, |stem|);
  }

  /** A name of leading dots followed by a dot-free rest (".bashrc") has no extension. */
  lemma LeadingDotsAreNoExtension(dots: string, rest: string)
    requires forall i :: 0 <= i < |dots| ==> dots[i] == '.'
    requires '.' !in rest && '/' !in rest
    ensures SplitExt(dots + rest) == (dots + rest, "")
  {
    var p := dots + rest;
    LastIndexAppendWithout(dots, rest, '/');
    LastIndexAppendWithout(dots, rest, '.');
    assert forall i :: 0 <= i < |dots| ==> p[i] == '.';
  }

  /** The extension of `q + name` is that of `name`, when `q` is empty or ends in a separator. */
  lemma ExtensionAfterSeparator(q: string, name: string)
    requires q == [] || q[|q| - 1] == '/'
    requires '/' !in name
    ensures SplitExt(q + name).1 == SplitExt(name).1
  {
    var p := q + name;
    LastIndexAppendWithout(q, name, '/');
    assert LastIndex(p, '/') == |q| - 1;
    assert LastIndex(name, '/') == -1;
    if '.' in name {
      LastIndexAppendWith(q, name, '.');
      var d := LastIndex(name, '.');
      NonDotBetweenShift(q, name, -1, d);
      assert p[|q| + d..] == name[d..];
    } else {
      LastIndexAppendWithout(q, name, '.');
      LastIndexAbsent(name, '.');
    }
  }

  /** `os.path.join(a, b)`: `b` itself when it is absolute, else `b` appended after one separator. */
  function Join(a: string, b: string): (r: string)
    ensures |b| > 0 && b[0] == '/' ==> r == b
  {
    if |b| > 0 && b[0] == '/' then b
    else if a == [] || a[|a| - 1] == '/' then a + b
    else a + "/" + b
  }

  /**
   * A relative name is appended to the directory: the result starts with the
   * directory, ends with the name, and has a single separator inserted
   * between them exactly when the directory is non-empty and does not
   * already end in one.
   */
  lemma JoinRelative(a: string, b: string)
    requires !(|b| > 0 && b[0] == '/')
    ensures a <= Join(a, b)
    ensures Join(a, b)[|Join(a, b)| - |b|..] == b
    ensures |a| + |b| <= |Join(a, b)| <= |a| + |b| + 1
    ensures |Join(a, b)| == |a| + |b| + 1 <==> |a| > 0 && a[|a| - 1] != '/'
    ensures |Join(a, b)| == |a| + |b| + 1 ==> Join(a, b)[|a|] == '/'
  {
  }

  /** A name without separators keeps its extension when joined onto a directory. */
  lemma ExtensionOfJoin(dir: string, name: string)
    requires '/' !in name
    ensures SplitExt(Join(dir, name)).1 == SplitExt(name).1
  {
    if dir == [] || dir[|dir| - 1] == '/' {
      ExtensionAfterSeparator(dir, name);
    } else {
      assert dir + "/" + name == (dir + "/") + name;
      ExtensionAfterSeparator(dir + "/", name);
    }
  }

  /** `str.lower` on one character (the model maps only ASCII capitals). */
  function LowerChar(c: char): char
  {
    if 'A' <= c <= 'Z' then (c as int + 32) as char else c
  }

  /** `str.lower`. */
  function Lower(s: string): (r: string)
    ensures |r| == |s|
    ensures forall i :: 0 <= i < |r| ==> !('A' <= r[i] <= 'Z')
  {
    seq(|s|, i requires 0 <= i < |s| => LowerChar(s[i]))
  }

  /** Each ASCII capital becomes its own small letter; every other character is kept. */
  lemma LowerMapsCapitals(s: string)
    ensures forall i :: 0 <= i < |s| && 'A' <= s[i] <= 'Z' ==> Lower(s)[i] as int == s[i] as int + 32
    ensures forall i :: 0 <= i < |s| && !('A' <= s[i] <= 'Z') ==> Lower(s)[i] == s[i]
  {
  }

  /** Lower-casing twice is lower-casing once, and lower-case text is left as it is. */
  lemma LowerIdempotent(s: string)
    ensures Lower(Lower(s)) == Lower(s)
    ensures (forall i :: 0 <= i < |s| ==> !('A' <= s[i] <= 'Z')) ==> Lower(s) == s
  {
  }
}
