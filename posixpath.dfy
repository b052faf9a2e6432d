/** `path.extname` of the Deno standard library on POSIX, which the watcher
    uses to check a file's extension against its allow-list: the extension
    of the last segment of the path, trailing separators ignored. */
module PosixPath {
  import opened Wrappers
  import opened Text

  /** The path without its trailing `/` characters. */
  function TrimTrailingSlashes(path: string): (t: string)
    ensures |t| <= |path| && t == path[..|t|]
    ensures t == [] || t[|t| - 1] != '/'
    ensures forall i :: |t| <= i < |path| ==> path[i] == '/'
  {
    if |path| > 0 && path[|path| - 1] == '/' then TrimTrailingSlashes(path[..|path| - 1]) else path
  }

  /** Index of the last `c` in `s`. */
  function LastIndexOf(s: string, c: char): (r: Option<nat>)
    ensures r.None? <==> c !in s
    ensures r.Some? ==> r.value < |s| && s[r.value] == c && c !in s[r.value + 1..]
  {
    if |s| == 0 then None
    else if s[|s| - 1] == c then Some(|s| - 1)
    else
      var r := LastIndexOf(s[..|s| - 1], c);
      assert r.Some? ==> s[r.value + 1..] == s[..|s| - 1][r.value + 1..] + [s[|s| - 1]];
      r
  }

  lemma LastIndexOfAt(s: string, c: char, d: nat)
    requires d < |s| && s[d] == c && c !in s[d + 1..]
    ensures LastIndexOf(s, c) == Some(d)
  {
    var r := LastIndexOf(s, c).value;
    AbsentAfter(s, c, r);
    AbsentAfter(s, c, d);
  }

  lemma AbsentAfter(s: string, c: char, i: nat)
    requires i < |s| && c !in s[i + 1..]
    ensures forall k :: i < k < |s| ==> s[k] != c
  {
    forall k | i < k < |s|
      ensures s[k] != c
    {
      assert s[k] == s[i + 1..][k - i - 1];
    }
  }

  /** The last segment of the path. */
  function Basename(path: string): (base: string)
    ensures '/' !in base
    ensures EndsWith(TrimTrailingSlashes(path), base)
  {
    var t := TrimTrailingSlashes(path);
    match LastIndexOf(t, '/')
    case None => t
    case Some(i) => t[i + 1..]
  }

  /** A segment without an extension: it has no `.`, its only `.` is its
      first character, or it is `..`. */
  predicate NoExtension(base: string) {
    '.' !in base || (|base| > 0 && base[0] == '.' && '.' !in base[1..]) || base == ".."
  }

  /** `path.extname`: from the last `.` of the last segment, or empty when
      there is none, when it is the segment's first character, or when the
      segment is `..`. */
  function ExtName(path: string): (ext: string)
    ensures ext == [] || (ext[0] == '.' && '.' !in ext[1..] && '/' !in ext)
    ensures EndsWith(TrimTrailingSlashes(path), ext)
    ensures ext == [] <==> NoExtension(Basename(path))
    ensures ext != [] ==> EndsWith(Basename(path), ext) && |ext| < |Basename(path)|
  {
    var base := Basename(path);
    match LastIndexOf(base, '.')
    case None => []
    case Some(d) =>
      if d == 0 || base == ".." then
        assert d == 0 ==> base[1..] == base[d + 1..];
        []
      else
        SuffixFacts(TrimTrailingSlashes(path), base, d);
        assert base[1..][d - 1] == '.';
        base[d..]
  }

  lemma SuffixFacts(t: string, base: string, d: nat)
    requires EndsWith(t, base) && '/' !in base
    requires d < |base| && base[d] == '.' && '.' !in base[d + 1..]
    ensures var ext := base[d..];
      ext[0] == '.' && '.' !in ext[1..] && '/' !in ext && EndsWith(t, ext)
  {
    var ext := base[d..];
    assert ext[1..] == base[d + 1..];
    assert forall k :: 0 <= k < |ext| ==> ext[k] == base[d + k];
    assert t[|t| - |ext|..] == base[d..];
  }

  /** The last segment of a path that does not end in `/` ends with any
      ending of the path that has no `/`. */
  lemma BasenameKeepsEnding(path: string, tail: string)
    requires EndsWith(path, tail) && '/' !in tail
    requires |path| > 0 && path[|path| - 1] != '/'
    ensures EndsWith(Basename(path), tail)
  {
    assert TrimTrailingSlashes(path) == path;
    var n := |path| - |tail|;
    forall j | n <= j < |path|
      ensures path[j] != '/'
    {
      assert path[j] == tail[j - n];
    }
    match LastIndexOf(path, '/')
    case None =>
    case Some(i) =>
      assert i < n;
      assert path[i + 1..][|path| - i - 1 - |tail|..] == tail;
  }

  /** A path that ends in a non-empty `stem` followed by an extension `ext`
      (a `.` and then no `.` and no `/`), where `stem` does not end in `.` or
      `/`, has extension `ext`. */
  lemma ExtNameOfName(stem: string, ext: string)
    requires |stem| > 0 && stem[|stem| - 1] != '/' && stem[|stem| - 1] != '.'
    requires |ext| > 0 && ext[0] == '.' && '.' !in ext[1..] && '/' !in ext
    ensures ExtName(stem + ext) == ext
  {
    var path := stem + ext;
    var last := stem[|stem| - 1];
    var tail := [last] + ext;
    assert EndsWith(path, tail) by { assert path[|path| - |tail|..] == tail; }
    assert path[|path| - 1] != '/' by { assert path[|path| - 1] == ext[|ext| - 1]; }
    BasenameKeepsEnding(path, tail);
    ExtOfSegment(Basename(path), last, ext);
  }

  /** The segment-level half of `ExtNameOfName`. */
  lemma ExtOfSegment(base: string, last: char, ext: string)
    requires last != '.' && |ext| > 0 && ext[0] == '.' && '.' !in ext[1..]
    requires EndsWith(base, [last] + ext)
    ensures var d := |base| - |ext|;
      LastIndexOf(base, '.') == Some(d) && d != 0 && base != ".." && base[d..] == ext
  {
    var d := |base| - |ext|;
    SegmentParts(base, last, ext);
    assert LastIndexOf(base, '.') == Some(d) by {
      assert base[d + 1..] == base[d..][1..];
      LastIndexOfAt(base, '.', d);
    }
    assert base != ".." by { assert base[d - 1] != '.'; }
  }

  /** The pieces of a segment ending in `last` followed by `ext`. */
  lemma SegmentParts(base: string, last: char, ext: string)
    requires EndsWith(base, [last] + ext)
    ensures var d := |base| - |ext|;
      1 <= d <= |base| && base[d - 1] == last && base[d..] == ext
  {
    var tail := [last] + ext;
    var n := |base| - |tail|;
    assert base[n..] == tail;
    assert base[n] == tail[0];
    assert base[n + 1..] == base[n..][1..] == tail[1..];
  }
}
