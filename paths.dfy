/**
 * The two POSIX `path` rules the backend relies on: `path.basename`, which the
 * image-deletion code uses to turn an image URL into a file name, and
 * `path.extname`, which the upload storage uses to keep the original extension.
 */
module PathRules {
  import opened Common

  /** `s` has no character `c`. */
  predicate Free(s: string, c: char)
  {
    forall i :: 0 <= i < |s| ==> s[i] != c
  }

  /** `r` is the last segment of `t`: a suffix of `t` that is all of `t` or follows a '/'. */
  predicate EndsSegment(r: string, t: string)
  {
    |r| <= |t| && r == t[|t| - |r|..] && (|r| < |t| ==> t[|t| - |r| - 1] == '/')
  }

  /** `e` is a suffix of `b`. */
  predicate SuffixOf(e: string, b: string)
  {
    |e| <= |b| && forall i :: 0 <= i < |e| ==> e[i] == b[|b| - |e| + i]
  }

  /** `b` has a '.' after its first character and is not "..": it has an extension. */
  predicate HasExtension(b: string)
  {
    b != ".." && exists i :: 0 < i < |b| && b[i] == '.'
  }

  /** `p` without its trailing run of '/' characters. */
  function TrimTrailingSlashes(p: string): (r: string)
    ensures |r| <= |p| && r == p[..|r|]
    ensures r == [] || r[|r| - 1] != '/'
    ensures forall i :: |r| <= i < |p| ==> p[i] == '/'
  {
    if p != [] && p[|p| - 1] == '/' then TrimTrailingSlashes(p[..|p| - 1]) else p
  }

  /** The part of `p` after its last '/' (all of `p` when it has none). */
  function LastSegment(p: string): (r: string)
    ensures Free(r, '/')
    ensures EndsSegment(r, p)
  {
    if p == [] || p[|p| - 1] == '/' then []
    else LastSegment(p[..|p| - 1]) + [p[|p| - 1]]
  }

  /** `path.basename(p)`: trailing separators are ignored, then the last segment is taken. */
  function Basename(p: string): (r: string)
    ensures Free(r, '/')
    ensures EndsSegment(r, TrimTrailingSlashes(p))
  {
    LastSegment(TrimTrailingSlashes(p))
  }

  /** Position of the last occurrence of `c` in `s`. */
  function LastIndexOf(s: string, c: char): (r: Option<nat>)
    ensures r.None? <==> Free(s, c)
    ensures r.Some? ==> r.value < |s| && s[r.value] == c
    ensures r.Some? ==> forall i :: r.value < i < |s| ==> s[i] != c
  {
    if s == [] then None
    else if s[|s| - 1] == c then Some(|s| - 1)
    else LastIndexOf(s[..|s| - 1], c)
  }

  /**
   * The extension of a base name: from its last '.' to its end, except that a name
   * whose last '.' is its first character ('.bashrc', '.'), '..', and a name with
   * no '.' have none.
   */
  function ExtensionOf(b: string): (e: string)
    ensures e == [] || (e[0] == '.' && forall i :: 1 <= i < |e| ==> e[i] != '.')
    ensures SuffixOf(e, b)
    ensures e != [] <==> HasExtension(b)
  {
    match LastIndexOf(b, '.')
    case None => ""
    case Some(d) =>
      assert forall i :: 0 < i < |b| && b[i] == '.' ==> i <= d;
      if d == 0 || b == ".." then "" else b[d..]
  }

  /** `path.extname(p)`: the extension of the base name. */
  function Extname(p: string): (e: string)
    ensures Free(e, '/')
    ensures e == [] || (e[0] == '.' && forall i :: 1 <= i < |e| ==> e[i] != '.')
    ensures SuffixOf(e, Basename(p))
    ensures e != [] <==> HasExtension(Basename(p))
  {
    ExtensionOf(Basename(p))
  }

  /** A string with no '/' that is not empty is its own base name. */
  lemma BasenameOfSegment(name: string)
    requires name != [] && Free(name, '/')
    ensures Basename(name) == name
  {
    assert TrimTrailingSlashes(name) == name;
    LastSegmentOfSegment(name);
  }

  lemma {:induction false} LastSegmentOfSegment(name: string)
    requires Free(name, '/')
    ensures LastSegment(name) == name
  {
    if name != [] {
      var init := name[..|name| - 1];
      LastSegmentOfSegment(init);
      assert name == init + [name[|name| - 1]];
    }
  }

  /** The base name of `dir + name`, with `dir` ending in '/', is `name`. */
  lemma BasenameAfterSeparator(dir: string, name: string)
    requires dir != [] && dir[|dir| - 1] == '/'
    requires name != [] && Free(name, '/')
    ensures Basename(dir + name) == name
  {
    var p := dir + name;
    assert TrimTrailingSlashes(p) == p;
    assert p[|p| - |name|..] == name;
  }
}
