/**
  Name and path helpers used by the directory scan: the file-name suffix test,
  the directory exclusion rule, and joining path components with '/'.
  Paths are POSIX paths; a directory entry name never contains '/'.
 */
module Paths {

  /** The suffix every scanned document's lower-cased name must carry. */
  const MarkdownSuffix: string := ".md"

  /** The dependency-cache directory the scan never descends into. */
  const VendorDir: string := "node_modules"

  /** ASCII lower-casing of one character; every other character is unchanged. */
  function LowerChar(c: char): (l: char) {
    if 'A' <= c <= 'Z' then (c as int + ('a' as int - 'A' as int)) as char else c
  }

  /** `String.prototype.toLowerCase`, restricted to ASCII letters. */
  function Lower(s: string): (r: string)
    ensures |r| == |s|
    ensures forall i :: 0 <= i < |s| ==> r[i] == LowerChar(s[i])
  {
    seq(|s|, i requires 0 <= i < |s| => LowerChar(s[i]))
  }

  predicate StartsWith(s: string, prefix: string) {
    |prefix| <= |s| && s[..|prefix|] == prefix
  }

  predicate EndsWith(s: string, suffix: string) {
    |suffix| <= |s| && s[|s| - |suffix|..] == suffix
  }

  /** The file test of the scan: the lower-cased name ends with ".md". */
  predicate IsMarkdownName(name: string) {
    EndsWith(Lower(name), MarkdownSuffix)
  }

  /** The directory test of the scan: not hidden and not the dependency cache. */
  predicate Descends(name: string) {
    !StartsWith(name, ".") && name != VendorDir
  }

  /** The suffix test, character by character: a '.', then 'm' or 'M', then 'd' or 'D'. */
  lemma MarkdownNameChars(name: string)
    ensures IsMarkdownName(name) <==>
              && |name| >= 3
              && name[|name| - 3] == '.'
              && name[|name| - 2] in {'m', 'M'}
              && name[|name| - 1] in {'d', 'D'}
  {
    var n := |name|;
    var low := Lower(name);
    if n >= 3 {
      var tail := low[n - 3..];
      assert tail[0] == LowerChar(name[n - 3]) && tail[1] == LowerChar(name[n - 2]) && tail[2] == LowerChar(name[n - 1]);
      if name[n - 3] == '.' && name[n - 2] in {'m', 'M'} && name[n - 1] in {'d', 'D'} {
        assert tail == MarkdownSuffix;
      }
      if IsMarkdownName(name) {
        assert tail == MarkdownSuffix;
        assert tail[0] == '.' && tail[1] == 'm' && tail[2] == 'd';
      }
    }
  }

  /** Hidden names are exactly those whose first character is '.'. */
  lemma DescendsChars(name: string)
    ensures Descends(name) <==> (|name| == 0 || name[0] != '.') && name != VendorDir
  {
    if |name| > 0 {
      assert StartsWith(name, ".") <==> name[..1] == ['.'];
    }
  }

  /** Relative path from components: `a/b/c`; the empty path for no components. */
  function JoinPath(segments: seq<string>): (p: string)
    ensures |segments| == 1 ==> p == segments[0]
  {
    if |segments| == 0 then ""
    else if |segments| == 1 then segments[0]
    else segments[0] + "/" + JoinPath(segments[1..])
  }

  /**
    Appending one component to a non-empty path adds "/" and the component,
    which is what `path.join(currentPath, item)` does to a normalised path.
   */
  lemma {:induction false} JoinPathSnoc(segments: seq<string>, name: string)
    requires |segments| > 0
    ensures JoinPath(segments + [name]) == JoinPath(segments) + "/" + name
    decreases |segments|
  {
    if |segments| == 1 {
      assert segments + [name] == [segments[0], name];
      assert (segments + [name])[1..] == [name];
    } else {
      assert (segments + [name])[1..] == segments[1..] + [name];
      JoinPathSnoc(segments[1..], name);
    }
  }

  /** Path of a scanned entry: the root itself, or the root, '/', and the relative path. */
  function PathUnder(root: string, segments: seq<string>): (p: string) {
    if |segments| == 0 then root else root + "/" + JoinPath(segments)
  }

  /** The path of an entry below the root starts with the root and a separator. */
  lemma PathUnderRoot(root: string, segments: seq<string>)
    requires |segments| > 0
    ensures var p := PathUnder(root, segments);
            StartsWith(p, root) && |p| > |root| && p[|root|] == '/'
  {
    var p := PathUnder(root, segments);
    assert p[..|root|] == root;
  }

  /**
    `path.relative(root, p)` in the only case the scan uses: `p` is the root
    followed by '/' and a relative path.
   */
  function RelativeTo(root: string, p: string): (rel: string)
    requires StartsWith(p, root) && |p| > |root|
    ensures p == root + [p[|root|]] + rel
  {
    p[|root| + 1..]
  }

  /** Relative path recovered from a path under the root is the joined components. */
  lemma RelativeToPathUnder(root: string, segments: seq<string>)
    requires |segments| > 0
    ensures RelativeTo(root, PathUnder(root, segments)) == JoinPath(segments)
  {
    var p := PathUnder(root, segments);
    PathUnderRoot(root, segments);
    assert p == root + "/" + JoinPath(segments);
    assert p[|root| + 1..] == JoinPath(segments);
  }
}
