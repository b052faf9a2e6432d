/** The name normaliser of server.ts: `fixFilename`, which turns a path
    relative to the watched directory into the name the game stores, and
    the `ALLOWED` extension list. */
module FileName {
  import opened Wrappers
  import opened Text

  /** `ALLOWED` (server.ts:3): the extensions the game accepts. */
  const Allowed: seq<string> := [".js", ".script", ".ns", ".txt"]

  /** The `.tsx`, then `.ts`, rewrite of line 45: each `replace` changes only
      the first occurrence, wherever it is in the name. */
  function RewriteExtension(name: string): string {
    ReplaceFirst(ReplaceFirst(name, ".tsx", ".js"), ".ts", ".js")
  }

  /** `fixFilename`: `None` stands for the `false` returned for a name with
      a space; any other name is rooted, then its first `.tsx` or `.ts` is
      rewritten. */
  function FixFilename(relative: string): (name: Option<string>)
    ensures name.None? <==> ' ' in relative
  {
    if ' ' in relative then None
    else
      Some(RewriteExtension(Rooted(relative)))
  }

  /** Lines 40-44: a name with a `/` that does not start with one gets a
      leading `/`. */
  function Rooted(relative: string): string {
    if NeedsRoot(relative) then "/" + relative else relative
  }

  /** Prepending a character the pattern does not start with shifts its
      leftmost occurrence by one. */
  lemma IndexOfAfterChar(c: char, x: string, p: string)
    requires |p| > 0 && p[0] != c
    ensures IndexOf(x, p).None? ==> IndexOf([c] + x, p).None?
    ensures IndexOf(x, p).Some? ==> IndexOf([c] + x, p) == Some(IndexOf(x, p).value + 1)
  {
    assert ([c] + x)[1..] == x;
  }

  lemma ReplaceFirstAfterSlash(x: string, p: string, r: string)
    requires |p| > 0 && p[0] != '/'
    ensures ReplaceFirst("/" + x, p, r) == "/" + ReplaceFirst(x, p, r)
  {
    IndexOfAfterChar('/', x, p);
    assert "/" + x == ['/'] + x;
    if IndexOf(x, p).Some? {
      ReplaceFirstShifted('/', x, p, r, IndexOf(x, p).value);
    }
  }

  lemma ReplaceFirstShifted(c: char, x: string, p: string, r: string, i: nat)
    requires FirstOccurrence(x, p, i) && FirstOccurrence([c] + x, p, i + 1)
    ensures ReplaceFirst([c] + x, p, r) == [c] + ReplaceFirst(x, p, r)
  {
    var y := [c] + x;
    assert ReplaceFirst(y, p, r) == y[..i + 1] + r + y[i + 1 + |p|..] by { ReplaceFirstAt(y, p, r, i + 1); }
    assert ReplaceFirst(x, p, r) == x[..i] + r + x[i + |p|..] by { ReplaceFirstAt(x, p, r, i); }
    SpliceAfterChar(c, x, r, i, |p|);
  }

  lemma SpliceAfterChar(c: char, x: string, r: string, i: nat, n: nat)
    requires i + n <= |x|
    ensures ([c] + x)[..i + 1] + r + ([c] + x)[i + 1 + n..] == [c] + (x[..i] + r + x[i + n..])
  {
    assert ([c] + x)[..i + 1] == [c] + x[..i];
    assert ([c] + x)[i + 1 + n..] == x[i + n..];
  }

  /** Lines 40-45: rooting and the extension rewrite commute, so a valid
      name gains exactly one leading `/` when it has a `/` but does not start
      with one, and otherwise only the extension rewrite applies. */
  lemma FixFilenameRooting(relative: string)
    requires ' ' !in relative
    ensures NeedsRoot(relative) ==> FixFilename(relative) == Some("/" + RewriteExtension(relative))
    ensures !NeedsRoot(relative) ==> FixFilename(relative) == Some(RewriteExtension(relative))
  {
    if NeedsRoot(relative) {
      var once := ReplaceFirst(relative, ".tsx", ".js");
      ReplaceFirstAfterSlash(relative, ".tsx", ".js");
      ReplaceFirstAfterSlash(once, ".ts", ".js");
    }
  }

  /** A valid name with a `/` always comes out starting with `/`. */
  lemma FixFilenameRooted(relative: string)
    requires ' ' !in relative && '/' in relative
    ensures FixFilename(relative).Some? && StartsWith(FixFilename(relative).value, "/")
  {
    FixFilenameRooting(relative);
    if StartsWith(relative, "/") {
      var once := ReplaceFirst(relative, ".tsx", ".js");
      ReplaceFirstKeepsStart(relative, ".tsx", ".js");
      ReplaceFirstKeepsStart(once, ".ts", ".js");
    }
  }

  /** `replace` keeps a leading `/` when neither pattern nor replacement
      starts with one. */
  lemma ReplaceFirstKeepsStart(s: string, p: string, r: string)
    requires StartsWith(s, "/") && |p| > 0 && p[0] != '/' && |r| > 0 && r[0] != '/'
    ensures StartsWith(ReplaceFirst(s, p, r), "/")
  {
    match IndexOf(s, p)
    case None =>
    case Some(i) =>
      FirstOccurrenceUnique(s, p, i);
      assert !OccursAt(s, p, 0) by {
        if |p| <= |s| { assert s[0..|p|][0] == '/'; }
      }
  }

  /** Adding an ending `e` that `q` can neither occur in nor reach into
      keeps `q` out of a text. */
  lemma AbsentWithEnding(stem: string, e: string, q: string)
    requires |q| > 0 && !Contains(stem, q) && !Contains(e, q) && LeftSafe(q, e)
    ensures !Contains(stem + e, q)
  {
    assert !Contains("", q);
    SpliceAbsent(stem, e, "", q);
    assert stem + e + "" == stem + e;
  }

  /** A pattern `p` that cannot overlap itself occurs first at the end of
      `stem + p` when `stem` lacks it. */
  lemma FirstAtEnd(stem: string, p: string)
    requires |p| > 0 && !Contains(stem, p) && LeftSafe(p, p)
    ensures FirstOccurrence(stem + p, p, |stem|)
  {
    var s := stem + p;
    assert s[|stem|..|stem| + |p|] == p;
    forall j: nat | j < |stem|
      ensures !OccursAt(s, p, j)
    {
      if j + |p| <= |stem| {
        assert s[j..j + |p|] == stem[j..j + |p|];
        assert !OccursAt(stem, p, j);
      } else {
        LeftSeam(stem, p, "", p, j);
        assert stem + p + "" == s;
      }
    }
  }

  /** Replacing a non-overlapping pattern that occurs only at the end. */
  lemma ReplaceAtEnd(stem: string, p: string, r: string)
    requires |p| > 0 && !Contains(stem, p) && LeftSafe(p, p)
    ensures ReplaceFirst(stem + p, p, r) == stem + r
  {
    FirstAtEnd(stem, p);
    ReplaceFirstAt(stem + p, p, r, |stem|);
    assert (stem + p)[..|stem|] == stem;
    assert (stem + p)[|stem| + |p|..] == [];
  }

  /** Replacing a pattern that the ending cannot complete changes nothing. */
  lemma ReplaceMissesEnding(stem: string, e: string, q: string, r: string)
    requires |q| > 0 && !Contains(stem, q) && !Contains(e, q) && LeftSafe(q, e)
    ensures ReplaceFirst(stem + e, q, r) == stem + e
  {
    AbsentWithEnding(stem, e, q);
    ReplaceFirstAbsent(stem + e, q, r);
  }

  lemma LongerAbsent(s: string, p: string, x: string)
    requires !Contains(s, p)
    ensures !Contains(s, p + x)
  {
    forall i: nat | i <= |s|
      ensures !OccursAt(s, p + x, i)
    {
      if OccursAt(s, p + x, i) {
        assert s[i..i + |p|] == (p + x)[..|p|];
        assert OccursAt(s, p, i);
      }
    }
  }

  /** Line 45 on a name ending in `.ts`: when the rest of the name has no
      `.ts`, only the ending changes, to `.js`. */
  lemma RewriteTsEnding(stem: string)
    requires !Contains(stem, ".ts")
    ensures RewriteExtension(stem + ".ts") == stem + ".js"
  {
    LongerAbsent(stem, ".ts", "x");
    assert ".ts" + "x" == ".tsx";
    AbsentByChars(".ts", ".tsx");
    LeftSafeByChars(".tsx", ".ts");
    ReplaceMissesEnding(stem, ".ts", ".tsx", ".js");
    LeftSafeByChars(".ts", ".ts");
    ReplaceAtEnd(stem, ".ts", ".js");
  }

  /** Line 45 on a name ending in `.tsx`: likewise, the ending becomes `.js`. */
  lemma RewriteTsxEnding(stem: string)
    requires !Contains(stem, ".ts")
    ensures RewriteExtension(stem + ".tsx") == stem + ".js"
  {
    LongerAbsent(stem, ".ts", "x");
    assert ".ts" + "x" == ".tsx";
    LeftSafeByChars(".tsx", ".tsx");
    ReplaceAtEnd(stem, ".tsx", ".js");
    AbsentByChars(".js", ".ts");
    LeftSafeByChars(".ts", ".js");
    ReplaceMissesEnding(stem, ".js", ".ts", ".js");
  }

  /** Line 45 on a name ending in `.js`: nothing changes. */
  lemma RewriteJsEnding(stem: string)
    requires !Contains(stem, ".ts")
    ensures RewriteExtension(stem + ".js") == stem + ".js"
  {
    LongerAbsent(stem, ".ts", "x");
    assert ".ts" + "x" == ".tsx";
    AbsentByChars(".js", ".tsx");
    LeftSafeByChars(".tsx", ".js");
    ReplaceMissesEnding(stem, ".js", ".tsx", ".js");
    AbsentByChars(".js", ".ts");
    LeftSafeByChars(".ts", ".js");
    ReplaceMissesEnding(stem, ".js", ".ts", ".js");
  }

  /** Whether line 43 roots a name. */
  predicate NeedsRoot(relative: string) {
    '/' in relative && !StartsWith(relative, "/")
  }

  /** Rooting looks at the stem only when the ending has no `/`. */
  lemma RootedEnding(stem: string, e: string)
    requires |e| > 0 && '/' !in e
    ensures NeedsRoot(stem + e) <==> NeedsRoot(stem)
  {
    assert '/' in stem + e <==> '/' in stem;
    if '/' in stem {
      assert |stem| > 0;
      assert (stem + e)[..1] == stem[..1];
    }
  }

  /** A TypeScript source `x.ts` or `x.tsx` and a script `x.js` all land on
      the same in-game name, the rooted `x.js`, when `x` has no space and no
      `.ts`: `fixFilename` is not one-to-one. */
  lemma FixFilenameEndings(stem: string)
    requires ' ' !in stem && !Contains(stem, ".ts")
    ensures FixFilename(stem + ".ts") == Some(Rooted(stem) + ".js")
    ensures FixFilename(stem + ".tsx") == Some(Rooted(stem) + ".js")
    ensures FixFilename(stem + ".js") == Some(Rooted(stem) + ".js")
  {
    RewriteTsEnding(stem);
    EndingFixed(stem, ".ts");
    RewriteTsxEnding(stem);
    EndingFixed(stem, ".tsx");
    RewriteJsEnding(stem);
    EndingFixed(stem, ".js");
  }

  lemma EndingFixed(stem: string, e: string)
    requires ' ' !in stem && ' ' !in e && '/' !in e && |e| > 0
    requires RewriteExtension(stem + e) == stem + ".js"
    ensures FixFilename(stem + e) == Some(Rooted(stem) + ".js")
  {
    assert ' ' !in stem + e;
    RootedEnding(stem, e);
    FixFilenameRooting(stem + e);
    if NeedsRoot(stem) {
      RootedWithJs(stem);
    }
  }

  lemma RootedWithJs(stem: string)
    requires NeedsRoot(stem)
    ensures Rooted(stem) + ".js" == "/" + (stem + ".js")
  {
  }

  /** The rewrite is not confined to the ending: the first `.ts` anywhere is
      replaced, as in `my.tsconfig.js`. */
  lemma RewriteIsNotSuffixOnly()
    ensures FixFilename("my.tsconfig.js") == Some("my.jsconfig.js")
  {
    var s := "my.tsconfig.js";
    assert ' ' !in s && !NeedsRoot(s);
    RewriteInsideName(s);
  }

  lemma RewriteInsideName(s: string)
    requires s == "my.tsconfig.js"
    ensures RewriteExtension(s) == "my.jsconfig.js"
  {
    MyTsxAbsent(s);
    ReplaceFirstAbsent(s, ".tsx", ".js");
    TsAfterMy(s);
    ReplaceFirstAt(s, ".ts", ".js", 2);
    MySplice(s);
  }

  lemma MyTsxAbsent(s: string)
    requires s == "my.tsconfig.js"
    ensures !Contains(s, ".tsx")
  {
    AbsentByChars(s, ".tsx");
  }

  lemma MySplice(s: string)
    requires s == "my.tsconfig.js"
    ensures s[..2] + ".js" + s[5..] == "my.jsconfig.js"
  {
  }

  lemma TsAfterMy(s: string)
    requires s == "my.tsconfig.js"
    ensures FirstOccurrence(s, ".ts", 2)
  {
    OccursByChars(s, ".ts", 2);
    assert !OccursAt(s, ".ts", 0) by { assert s[0..3][0] != '.'; }
    assert !OccursAt(s, ".ts", 1) by { assert s[1..4][0] != '.'; }
  }

  /** `utils/helper.ts` gains a leading `/` and a `.js` ending. */
  lemma HelperExample()
    ensures FixFilename("utils/helper.ts") == Some("/utils/helper.js")
  {
    HelperName("utils/helper");
    HelperSpelled();
  }

  lemma HelperSpelled()
    ensures "utils/helper" + ".ts" == "utils/helper.ts"
    ensures "/" + "utils/helper" + ".js" == "/utils/helper.js"
  {
  }

  lemma HelperName(stem: string)
    requires stem == "utils/helper"
    ensures FixFilename(stem + ".ts") == Some("/" + stem + ".js")
  {
    AbsentByChars(stem, ".ts");
    assert stem[5] == '/';
    assert stem[..1][0] == 'u';
    assert NeedsRoot(stem);
    FixFilenameEndings(stem);
  }

  /** `a.tsx` keeps its root and gets the `.js` ending. */
  lemma TsxExample()
    ensures FixFilename("a.tsx") == Some("a.js")
  {
    ShortName("a");
    ShortSpelled();
  }

  lemma ShortSpelled()
    ensures "a" + ".tsx" == "a.tsx" && "a" + ".js" == "a.js"
  {
  }

  lemma ShortName(stem: string)
    requires stem == "a"
    ensures FixFilename(stem + ".tsx") == Some(stem + ".js")
  {
    assert !Contains(stem, ".ts");
    FixFilenameEndings(stem);
  }
}
