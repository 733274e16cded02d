/** The two functions of Node's `path` module (POSIX flavour) that the upload
    code relies on: `path.basename(p)` and `path.extname(p)`. Both look at the
    last segment of the path once trailing slashes are dropped. */
module NodePath {
  import opened Common

  /** Index of the last occurrence of `c` in `s`. */
  function LastIndexOf(s: string, c: char): (r: Option<nat>)
    ensures r.Some? ==> r.value < |s| && s[r.value] == c && c !in s[r.value + 1..]
    ensures r.None? ==> c !in s
    decreases |s|
  {
    if s == [] then None
    else if s[|s| - 1] == c then Some(|s| - 1)
    else
      var r := LastIndexOf(s[..|s| - 1], c);
      assert s == s[..|s| - 1] + [s[|s| - 1]];
      r
  }

  /** The last occurrence is the only one whose suffix is free of `c`. */
  lemma LastIndexOfSplit(a: string, c: char, b: string)
    requires c !in b
    ensures LastIndexOf(a + [c] + b, c) == Some(|a|)
  {
    var s := a + [c] + b;
    assert s[|a|] == c;
  }

  /** `p` without its trailing '/' characters. */
  function TrimTrailingSlashes(p: string): (r: string)
    ensures |r| <= |p| && r == p[..|r|]
    ensures r == "" || r[|r| - 1] != '/'
    ensures forall k :: |r| <= k < |p| ==> p[k] == '/'
    decreases |p|
  {
    if p != [] && p[|p| - 1] == '/' then TrimTrailingSlashes(p[..|p| - 1]) else p
  }

  /** `path.basename(p)`: the last segment of `p`, trailing slashes ignored. */
  function Basename(p: string): (r: string)
    ensures '/' !in r
  {
    var t := TrimTrailingSlashes(p);
    match LastIndexOf(t, '/')
    case None => t
    case Some(i) => t[i + 1..]
  }

  /** Joining a directory and a plain file name gives back that name. */
  lemma {:induction false} BasenameOfJoin(dir: string, name: string)
    requires name != "" && '/' !in name
    ensures Basename(dir + "/" + name) == name
  {
    var p := dir + "/" + name;
    assert p[|p| - 1] == name[|name| - 1];
    assert TrimTrailingSlashes(p) == p;
    assert p == dir + ['/'] + name;
    LastIndexOfSplit(dir, '/', name);
  }

  /** `path.extname(p)`: in the last segment, the part from the last '.' on;
      empty when that segment has no '.', when its only '.' is the first
      character, and for the segment "..". */
  function ExtName(p: string): (r: string)
    ensures r == "" || (r[0] == '.' && '.' !in r[1..] && '/' !in r)
    ensures r != "" ==> |r| < |Basename(p)| && Basename(p)[|Basename(p)| - |r|..] == r
    ensures r == "" <==> NoExtension(Basename(p))
  {
    SegmentExt(Basename(p))
  }

  /** A segment without an extension: no '.', its only '.' is the first
      character, or the segment is "..". */
  predicate NoExtension(base: string) {
    '.' !in base || base == ".." || (|base| > 0 && base[0] == '.' && '.' !in base[1..])
  }

  /** The extension of one path segment (a string without '/'). */
  function SegmentExt(base: string): (r: string)
    requires '/' !in base
    ensures r == "" || (r[0] == '.' && '.' !in r[1..] && '/' !in r)
    ensures r != "" ==> |r| < |base| && base[|base| - |r|..] == r
    ensures r == "" <==> NoExtension(base)
  {
    match LastIndexOf(base, '.')
    case None => ""
    case Some(d) =>
      if d == 0 || base == ".." then ""
      else
        assert base[d] == base[1..][d - 1];
        base[d..]
  }

  /** A plain name (no '/') is its own basename. */
  lemma BasenameOfName(name: string)
    requires name != "" && '/' !in name
    ensures Basename(name) == name
  {
    assert name[|name| - 1] in name;
    assert TrimTrailingSlashes(name) == name;
  }

  /** A name "stem.ext" with a stem not starting with '.' has extension ".ext". */
  lemma ExtNameOfDottedName(stem: string, ext: string)
    requires stem != "" && stem[0] != '.'
    requires '/' !in stem && '/' !in ext && '.' !in ext
    ensures ExtName(stem + "." + ext) == "." + ext
  {
    var p := stem + ['.'] + ext;
    assert stem + "." + ext == p;
    BasenameOfName(p);
    LastIndexOfSplit(stem, '.', ext);
    assert p[|stem|..] == "." + ext;
  }

  /** A last segment without any '.' has no extension. */
  lemma ExtNameWithoutDot(p: string)
    requires '.' !in Basename(p)
    ensures ExtName(p) == ""
  {
  }

  /** A dot file such as ".env" has no extension. */
  lemma ExtNameOfDotFile(name: string)
    requires '/' !in name && '.' !in name
    ensures ExtName("." + name) == ""
  {
    var p := [] + ['.'] + name;
    assert "." + name == p;
    BasenameOfName(p);
    LastIndexOfSplit([], '.', name);
  }
}
