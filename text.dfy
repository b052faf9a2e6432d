/** The JavaScript string operations the sync pipeline is built from:
    `includes`, `indexOf`, `replace` with a string pattern (first occurrence
    only) and `replaceAll` with a string pattern (every occurrence found by a
    left-to-right scan, matches never overlapping).

    Besides their defining properties, this module proves when a rewrite
    cannot bring a pattern back into the text: the basis of the content
    fixer's guarantee that no `document.` survives. */
module Text {
  import opened Wrappers

  /** `p` occurs in `s` starting at index `i`. */
  predicate OccursAt(s: string, p: string, i: nat) {
    i + |p| <= |s| && s[i..i + |p|] == p
  }

  /** JavaScript's `s.includes(p)`. */
  predicate Contains(s: string, p: string) {
    exists i: nat | i <= |s| :: OccursAt(s, p, i)
  }

  /** `i` is where the leftmost occurrence of `p` in `s` starts. */
  predicate FirstOccurrence(s: string, p: string, i: nat) {
    OccursAt(s, p, i) && forall j: nat :: j < i ==> !OccursAt(s, p, j)
  }

  predicate StartsWith(s: string, p: string) {
    |p| <= |s| && s[..|p|] == p
  }

  predicate EndsWith(s: string, p: string) {
    |p| <= |s| && s[|s| - |p|..] == p
  }

  /** The left-to-right scan behind `indexOf`. */
  function Find(s: string, p: string): (r: Option<nat>)
    ensures r.Some? ==> r.value + |p| <= |s|
    decreases |s|
  {
    if |s| < |p| then None
    else if s[..|p|] == p then Some(0)
    else
      match Find(s[1..], p)
      case None => None
      case Some(k) => Some(k + 1)
  }

  /** The scan stops at the leftmost occurrence, and finds none exactly when
      there is none. */
  lemma {:induction false} FindLeftmost(s: string, p: string)
    ensures Find(s, p).Some? ==> FirstOccurrence(s, p, Find(s, p).value)
    ensures Find(s, p).None? <==> !Contains(s, p)
    decreases |s|
  {
    if |s| < |p| {
      assert forall i: nat :: !OccursAt(s, p, i);
    } else if s[..|p|] == p {
      assert OccursAt(s, p, 0);
    } else {
      FindLeftmost(s[1..], p);
      match Find(s[1..], p)
      case None => NotFoundAfterFirst(s, p);
      case Some(k) => FoundAfterFirst(s, p, k);
    }
  }

  /** An occurrence not at index 0 is an occurrence in the rest of the text. */
  lemma ShiftedOccurrence(s: string, p: string, j: nat)
    requires 0 < j && OccursAt(s, p, j)
    ensures OccursAt(s[1..], p, j - 1)
  {
    SliceOfSlice(s, 1, |s|, j - 1, j - 1 + |p|);
  }

  /** A piece of a piece is a piece of the whole. */
  lemma SliceOfSlice(s: string, lo: nat, hi: nat, i: nat, j: nat)
    requires lo <= hi <= |s| && i <= j <= hi - lo
    ensures s[lo..hi][i..j] == s[lo + i..lo + j]
  {
    forall t | 0 <= t < j - i
      ensures s[lo..hi][i..j][t] == s[lo + i..lo + j][t]
    {
      assert s[lo..hi][i..j][t] == s[lo..hi][i + t] == s[lo + i + t];
    }
  }

  lemma NotFoundAfterFirst(s: string, p: string)
    requires |s| > 0 && !OccursAt(s, p, 0) && !Contains(s[1..], p)
    ensures !Contains(s, p)
  {
    forall j: nat | 0 < j <= |s|
      ensures !OccursAt(s, p, j)
    {
      if OccursAt(s, p, j) {
        ShiftedOccurrence(s, p, j);
      }
    }
  }

  lemma FoundAfterFirst(s: string, p: string, k: nat)
    requires |s| > 0 && !OccursAt(s, p, 0) && FirstOccurrence(s[1..], p, k)
    ensures FirstOccurrence(s, p, k + 1)
  {
    assert s[k + 1..k + 1 + |p|] == s[1..][k..k + |p|];
    forall j: nat | 0 < j < k + 1
      ensures !OccursAt(s, p, j)
    {
      if OccursAt(s, p, j) {
        ShiftedOccurrence(s, p, j);
      }
    }
  }

  /** JavaScript's `s.indexOf(p)`, with `None` for -1. */
  function IndexOf(s: string, p: string): (r: Option<nat>)
    ensures r.Some? ==> FirstOccurrence(s, p, r.value)
    ensures r.None? <==> !Contains(s, p)
  {
    FindLeftmost(s, p);
    Find(s, p)
  }

  /** JavaScript's `s.replace(p, r)` with a string pattern: only the leftmost
      occurrence of `p` is replaced. (No replacement text used by the watcher
      contains `$`, so replacement patterns such as `$&` play no part.) */
  function ReplaceFirst(s: string, p: string, r: string): string {
    match Find(s, p)
    case None => s
    case Some(i) => s[..i] + r + s[i + |p|..]
  }

  /** JavaScript's `s.replaceAll(p, r)` with a non-empty string pattern. */
  function ReplaceAll(s: string, p: string, r: string): (t: string)
    requires |p| > 0
    decreases |s|
  {
    match Find(s, p)
    case None => s
    case Some(i) => s[..i] + r + ReplaceAll(s[i + |p|..], p, r)
  }

  /** `replace` rewrites exactly the leftmost occurrence. */
  lemma ReplaceFirstAt(s: string, p: string, r: string, i: nat)
    requires FirstOccurrence(s, p, i)
    ensures ReplaceFirst(s, p, r) == s[..i] + r + s[i + |p|..]
  {
    IndexOfAt(s, p, i);
  }

  /** A text that starts with the pattern has that first copy replaced. */
  lemma ReplaceFirstAtStart(p: string, rest: string, r: string)
    ensures ReplaceFirst(p + rest, p, r) == r + rest
  {
    var s := p + rest;
    assert s[0..|p|] == p;
    ReplaceFirstAt(s, p, r, 0);
    assert s[..0] == [] && s[|p|..] == rest;
  }

  /** `replace` leaves a text without the pattern unchanged. */
  lemma ReplaceFirstAbsent(s: string, p: string, r: string)
    requires !Contains(s, p)
    ensures ReplaceFirst(s, p, r) == s
  {
    FindLeftmost(s, p);
  }

  lemma FirstOccurrenceUnique(s: string, p: string, i: nat)
    requires FirstOccurrence(s, p, i)
    ensures forall j: nat :: FirstOccurrence(s, p, j) ==> j == i
  {
  }

  /** Replacing every occurrence of a pattern that does not occur changes nothing. */
  lemma ReplaceAllAbsent(s: string, p: string, r: string)
    requires |p| > 0
    requires !Contains(s, p)
    ensures ReplaceAll(s, p, r) == s
  {
    FindLeftmost(s, p);
  }

  /** `indexOf` finds the leftmost occurrence. */
  lemma IndexOfAt(s: string, p: string, i: nat)
    requires FirstOccurrence(s, p, i)
    ensures IndexOf(s, p) == Some(i)
  {
    FirstOccurrenceUnique(s, p, i);
  }

  /** `replaceAll` on a text with a single occurrence. */
  lemma ReplaceAllOnce(s: string, p: string, r: string, i: nat)
    requires |p| > 0 && FirstOccurrence(s, p, i) && !Contains(s[i + |p|..], p)
    ensures ReplaceAll(s, p, r) == s[..i] + r + s[i + |p|..]
  {
    ReplaceAllAt(s, p, r, i);
    ReplaceAllAbsent(s[i + |p|..], p, r);
  }

  /** `replaceAll` replaces the leftmost occurrence, then carries on with the
      text after it: the next match starts no earlier than where this one
      ends, so matches never overlap. */
  lemma {:induction false} ReplaceAllAt(s: string, p: string, r: string, i: nat)
    requires |p| > 0 && FirstOccurrence(s, p, i)
    ensures ReplaceAll(s, p, r) == s[..i] + r + ReplaceAll(s[i + |p|..], p, r)
  {
    IndexOfAt(s, p, i);
  }

  /** Every piece of a text without `q` is itself without `q`. */
  lemma SliceAbsent(s: string, q: string, lo: nat, hi: nat)
    requires lo <= hi <= |s|
    requires !Contains(s, q)
    ensures !Contains(s[lo..hi], q)
  {
    forall i: nat | i <= hi - lo
      ensures !OccursAt(s[lo..hi], q, i)
    {
      if i + |q| <= hi - lo {
        SliceOfSlice(s, lo, hi, i, i + |q|);
        assert !OccursAt(s, q, lo + i);
      }
    }
  }

  /** `p` occurs at `i` when `s` matches it character by character there. */
  lemma OccursByChars(s: string, p: string, i: nat)
    requires i + |p| <= |s|
    requires forall k :: 0 <= k < |p| ==> s[i + k] == p[k]
    ensures OccursAt(s, p, i)
  {
    forall k | 0 <= k < |p|
      ensures s[i..i + |p|][k] == p[k]
    {
      assert s[i..i + |p|][k] == s[i + k];
    }
  }

  /** The text before the leftmost occurrence of `p` has no `p`. */
  lemma BeforeFirstAbsent(s: string, p: string, i: nat)
    requires |p| > 0 && FirstOccurrence(s, p, i)
    ensures !Contains(s[..i], p)
  {
    forall j: nat | j <= i
      ensures !OccursAt(s[..i], p, j)
    {
      if j + |p| <= i {
        SliceOfSlice(s, 0, i, j, j + |p|);
        assert !OccursAt(s, p, j);
      }
    }
  }

  /** `x` and `y` agree on the positions both have. */
  predicate Agree(x: string, y: string) {
    if |x| <= |y| then x == y[..|x|] else x[..|y|] == y
  }

  /** No occurrence of `q` can begin in the text before an inserted `r` and
      reach into `r`. */
  predicate LeftSafe(q: string, r: string) {
    forall k :: 1 <= k < |q| ==> !Agree(q[k..], r)
  }

  /** No tail of `r` is a proper beginning of `q`: nothing after an inserted
      `r` can complete an occurrence of `q` that starts inside it. */
  predicate SeamFree(q: string, r: string) {
    forall m :: 1 <= m < |q| && m <= |r| ==> !EndsWith(r, q[..m])
  }

  /** An occurrence of `q` that begins in an inserted `r` (replacing `p`) and
      reaches past its end could only do so with a tail of `r` that `p`
      ends with too, and the text after `r` can only start the rest of `q`
      if the scan left it as it was. */
  predicate RightSafe(q: string, p: string, r: string) {
    forall m :: 1 <= m < |q| && m <= |r| && EndsWith(r, q[..m]) ==>
      EndsWith(p, q[..m]) && r[0] !in q[m..]
  }

  /** The core splice argument: a text `a + r + b` whose three parts are free
      of `q` contains `q` only across one of the two seams. */
  lemma SpliceAbsent(a: string, r: string, b: string, q: string)
    requires |q| > 0
    requires !Contains(a, q) && !Contains(r, q) && !Contains(b, q)
    requires LeftSafe(q, r)
    requires forall m :: 1 <= m < |q| && m <= |r| && |q| - m <= |b| ==>
               !(EndsWith(r, q[..m]) && StartsWith(b, q[m..]))
    ensures !Contains(a + r + b, q)
  {
    var t := a + r + b;
    forall j: nat | j <= |t|
      ensures !OccursAt(t, q, j)
    {
      if j + |q| <= |t| {
        var w := t[j..j + |q|];
        if j + |q| <= |a| {
          assert w == a[j..j + |q|];
          assert !OccursAt(a, q, j);
        } else if j < |a| {
          LeftSeam(a, r, b, q, j);
        } else if j + |q| <= |a| + |r| {
          assert w == r[j - |a|..j - |a| + |q|];
          assert !OccursAt(r, q, j - |a|);
        } else if j < |a| + |r| {
          RightSeam(a, r, b, q, j);
        } else {
          assert w == b[j - |a| - |r|..j - |a| - |r| + |q|];
          assert !OccursAt(b, q, j - |a| - |r|);
        }
      }
    }
  }

  /** An occurrence reaching from `a` into `r` would make `q` agree with `r`
      from some position `k >= 1` on. */
  lemma LeftSeam(a: string, r: string, b: string, q: string, j: nat)
    requires j < |a| < j + |q| <= |a| + |r| + |b|
    requires LeftSafe(q, r)
    ensures (a + r + b)[j..j + |q|] != q
  {
    var t := a + r + b;
    var w := t[j..j + |q|];
    var k := |a| - j;
    assert !Agree(q[k..], r);
    if |w[k..]| <= |r| {
      assert w[k..] == r[..|w[k..]|];
    } else {
      assert t[|a|..|a| + |r|] == r;
      assert w[k..][..|r|] == t[|a|..|a| + |r|];
    }
    assert w[k..] != q[k..];
  }

  /** An occurrence reaching from `r` into `b` would need a tail of `r` to
      begin `q` and `b` to begin with the rest of it. */
  lemma RightSeam(a: string, r: string, b: string, q: string, j: nat)
    requires |a| <= j < |a| + |r| < j + |q| <= |a| + |r| + |b|
    requires forall m :: 1 <= m < |q| && m <= |r| && |q| - m <= |b| ==>
               !(EndsWith(r, q[..m]) && StartsWith(b, q[m..]))
    ensures (a + r + b)[j..j + |q|] != q
  {
    var t := a + r + b;
    var w := t[j..j + |q|];
    var m := |a| + |r| - j;
    assert t[j..|a| + |r|] == r[|r| - m..];
    assert w[..m] == t[j..|a| + |r|];
    assert w[m..] == t[|a| + |r|..j + |q|] == b[..|q| - m];
    assert w[..m] != q[..m] || w[m..] != q[m..];
  }

  /** Where the leftmost occurrence of `p` in `c` starts at `n` or later (or
      there is none), `ReplaceAll` leaves the first `n` characters alone; where
      it starts at `t < n`, the replacement text begins at `t`. */
  lemma ReplaceAllPrefix(c: string, p: string, r: string, n: nat)
    requires |p| > 0 && |r| > 0 && n <= |ReplaceAll(c, p, r)|
    ensures match IndexOf(c, p)
            case Some(t) =>
              if t < n then ReplaceAll(c, p, r)[t] == r[0]
              else n <= |c| && ReplaceAll(c, p, r)[..n] == c[..n]
            case None => ReplaceAll(c, p, r) == c
  {
  }

  /** `replace` cannot bring `q` into a text that lacks it, when `r` lacks
      `q` and neither seam of the inserted `r` can complete an occurrence. */
  lemma ReplaceFirstKeepsAbsent(s: string, p: string, r: string, q: string)
    requires |q| > 0
    requires !Contains(s, q) && !Contains(r, q)
    requires LeftSafe(q, r) && RightSafe(q, p, r)
    ensures !Contains(ReplaceFirst(s, p, r), q)
  {
    match IndexOf(s, p)
    case None =>
    case Some(i) =>
      var a, c := s[..i], s[i + |p|..];
      SliceAbsent(s, q, 0, i);
      SliceAbsent(s, q, i + |p|, |s|);
      assert s[i + |p|..|s|] == c;
      ReplacedSeamsClosed(s, i, p, r, q);
      SpliceAbsent(a, r, c, q);
  }

  /** After a single replacement, no occurrence of `q` can straddle the
      right seam. */
  lemma ReplacedSeamsClosed(s: string, i: nat, p: string, r: string, q: string)
    requires OccursAt(s, p, i) && !Contains(s, q) && RightSafe(q, p, r)
    ensures forall m :: 1 <= m < |q| && m <= |r| && |q| - m <= |s[i + |p|..]| ==>
              !(EndsWith(r, q[..m]) && StartsWith(s[i + |p|..], q[m..]))
  {
    forall m | 1 <= m < |q| && m <= |r| && |q| - m <= |s[i + |p|..]|
      ensures !(EndsWith(r, q[..m]) && StartsWith(s[i + |p|..], q[m..]))
    {
      if EndsWith(r, q[..m]) && StartsWith(s[i + |p|..], q[m..]) {
        ReplacedSeam(s, i, p, q, m);
      }
    }
  }

  /** Where `p` occurs at `i`, ends with the first `m` characters of `q` and
      the text after it starts with the rest of `q`, `q` occurs in `s`. */
  lemma ReplacedSeam(s: string, i: nat, p: string, q: string, m: nat)
    requires OccursAt(s, p, i) && 1 <= m < |q|
    requires EndsWith(p, q[..m]) && StartsWith(s[i + |p|..], q[m..])
    ensures Contains(s, q)
  {
    var e := i + |p|;
    assert s[e - m..e] == p[|p| - m..] == q[..m];
    assert s[e..e + |q| - m] == q[m..];
    assert s[e - m..e - m + |q|] == s[e - m..e] + s[e..e + |q| - m];
    assert q == q[..m] + q[m..];
    assert OccursAt(s, q, e - m);
  }

  /** `replaceAll` cannot bring `q` into a text that lacks it, under the
      same conditions as `replace`. */
  lemma {:induction false} ReplaceAllKeepsAbsent(s: string, p: string, r: string, q: string)
    requires |p| > 0 && |q| > 0 && |r| > 0
    requires !Contains(s, q) && !Contains(r, q)
    requires LeftSafe(q, r) && RightSafe(q, p, r)
    ensures !Contains(ReplaceAll(s, p, r), q)
    decreases |s|
  {
    match IndexOf(s, p)
    case None =>
    case Some(i) =>
      var a, c := s[..i], s[i + |p|..];
      SliceAbsent(s, q, 0, i);
      SliceAbsent(s, q, i + |p|, |s|);
      assert s[i + |p|..|s|] == c;
      ReplaceAllKeepsAbsent(c, p, r, q);
      var b := ReplaceAll(c, p, r);
      forall m | 1 <= m < |q| && m <= |r| && |q| - m <= |b|
        ensures !(EndsWith(r, q[..m]) && StartsWith(b, q[m..]))
      {
        if EndsWith(r, q[..m]) && StartsWith(b, q[m..]) {
          ReplaceAllSeam(s, i, p, r, q, m);
        }
      }
      SpliceAbsent(a, r, b, q);
  }

  /** The right seam of one `replaceAll` step: if the inserted `r` ends with
      the first `m` characters of `q` and the rewritten rest starts with the
      remainder, the original text already contained `q`. */
  lemma ReplaceAllSeam(s: string, i: nat, p: string, r: string, q: string, m: nat)
    requires |p| > 0 && |r| > 0 && OccursAt(s, p, i)
    requires RightSafe(q, p, r) && 1 <= m < |q| && m <= |r|
    requires EndsWith(r, q[..m]) && StartsWith(ReplaceAll(s[i + |p|..], p, r), q[m..])
    ensures Contains(s, q)
  {
    var c := s[i + |p|..];
    var b := ReplaceAll(c, p, r);
    var n := |q| - m;
    assert r[0] !in q[m..];
    assert forall k :: 0 <= k < n ==> b[k] == q[m..][k] != r[0];
    ReplaceAllPrefix(c, p, r, n);
    match IndexOf(c, p)
    case Some(t) =>
      assert c[..n] == q[m..];
      ReplacedSeam(s, i, p, q, m);
    case None =>
      ReplacedSeam(s, i, p, q, m);
  }

  /** `replaceAll` leaves no occurrence of its own pattern behind when the
      replacement neither contains it nor can complete it across a seam. */
  lemma {:induction false} ReplaceAllRemoves(s: string, p: string, r: string)
    requires |p| > 0 && |r| > 0
    requires !Contains(r, p)
    requires LeftSafe(p, r) && SeamFree(p, r)
    ensures !Contains(ReplaceAll(s, p, r), p)
    decreases |s|
  {
    match IndexOf(s, p)
    case None =>
    case Some(i) =>
      var a, c := s[..i], s[i + |p|..];
      BeforeFirstAbsent(s, p, i);
      ReplaceAllRemoves(c, p, r);
      SpliceAbsent(a, r, ReplaceAll(c, p, r), p);
  }

  /* Character-level conditions that imply the predicates above. They are
     stated so that Dafny can check them on the literal patterns and
     replacements of the content fixer one position at a time. */

  /** `q` does not occur in `r` if no window of `r` matches `q` in its first
      two and its last character. */
  lemma AbsentByChars(r: string, q: string)
    requires |q| >= 2
    requires forall i :: 0 <= i <= |r| - |q| ==>
               r[i] != q[0] || r[i + 1] != q[1] || r[i + |q| - 1] != q[|q| - 1]
    ensures !Contains(r, q)
  {
    forall i: nat | i <= |r|
      ensures !OccursAt(r, q, i)
    {
      if i + |q| <= |r| {
        var w := r[i..i + |q|];
        if r[i] != q[0] {
          assert w[0] != q[0];
        } else if r[i + 1] != q[1] {
          assert w[1] != q[1];
        } else {
          assert w[|q| - 1] != q[|q| - 1];
        }
      }
    }
  }

  /** `q` does not occur in `r` if one of its characters does not. */
  lemma AbsentByChar(r: string, q: string, k: nat)
    requires k < |q| && q[k] !in r
    ensures !Contains(r, q)
  {
    forall i: nat | i <= |r|
      ensures !OccursAt(r, q, i)
    {
      if i + |q| <= |r| {
        assert r[i..i + |q|][k] == r[i + k];
      }
    }
  }

  /** `LeftSafe` holds if every later position of `q` differs from the
      first or second character of `r`. */
  lemma LeftSafeByChars(q: string, r: string)
    requires |r| >= 2
    requires forall k :: 1 <= k < |q| ==> q[k] != r[0] || (k + 1 < |q| && q[k + 1] != r[1])
    ensures LeftSafe(q, r)
  {
    forall k | 1 <= k < |q|
      ensures !Agree(q[k..], r)
    {
      assert q[k] != r[0] || (k + 1 < |q| && q[k + 1] != r[1]);
      AgreeAt(q[k..], r, 0);
      if k + 1 < |q| {
        AgreeAt(q[k..], r, 1);
      }
    }
  }

  lemma AgreeAt(x: string, y: string, i: nat)
    requires i < |x| && i < |y|
    ensures Agree(x, y) ==> x[i] == y[i]
  {
    if |x| <= |y| {
      assert y[..|x|][i] == y[i];
    } else {
      assert x[..|y|][i] == x[i];
    }
  }

  /** No tail of `r` of length `m` begins `q` if its first or last character
      does not match. */
  lemma TailMismatch(q: string, r: string, m: nat)
    requires 1 <= m <= |q| && m <= |r|
    requires r[|r| - m] != q[0] || r[|r| - 1] != q[m - 1]
    ensures !EndsWith(r, q[..m])
  {
    if r[|r| - m] != q[0] {
      assert r[|r| - m..][0] != q[..m][0];
    } else {
      assert r[|r| - m..][m - 1] != q[..m][m - 1];
    }
  }

  /** `SeamFree` holds if no tail of `r` shorter than `q` starts with the
      first character of `q` and ends with the matching one. */
  lemma SeamFreeByChars(q: string, r: string)
    requires forall t :: 0 <= t < |r| && |r| - t < |q| ==> r[t] != q[0] || r[|r| - 1] != q[|r| - t - 1]
    ensures SeamFree(q, r)
  {
    forall m | 1 <= m < |q| && m <= |r|
      ensures !EndsWith(r, q[..m])
    {
      assert r[|r| - m] != q[0] || r[|r| - 1] != q[m - 1];
      TailMismatch(q, r, m);
    }
  }

  /** `SeamFree` holds if the last character of `r` does not occur in `q`. */
  lemma SeamFreeByLastChar(q: string, r: string)
    requires |r| > 0 && r[|r| - 1] !in q
    ensures SeamFree(q, r)
  {
    forall m | 1 <= m < |q| && m <= |r|
      ensures !EndsWith(r, q[..m])
    {
      assert q[m - 1] in q;
      TailMismatch(q, r, m);
    }
  }

  /** `RightSafe` holds if `r` and `p` share their last `shared` characters,
      no longer tail of `r` can begin `q`, and the first character of `r`
      does not occur in `q` after its first position. */
  lemma RightSafeByChars(q: string, p: string, r: string, shared: nat)
    requires |r| > 0 && shared <= |r| && shared <= |p|
    requires forall t :: |r| - shared <= t < |r| ==> r[t] == p[t + |p| - |r|]
    requires forall t :: 0 <= t < |r| - shared && |r| - t < |q| ==> r[t] != q[0] || r[|r| - 1] != q[|r| - t - 1]
    requires forall i :: 1 <= i < |q| ==> q[i] != r[0]
    ensures RightSafe(q, p, r)
  {
    forall m | 1 <= m < |q| && m <= |r|
      ensures EndsWith(r, q[..m]) ==> EndsWith(p, q[..m]) && r[0] !in q[m..]
    {
      if m > shared {
        assert r[|r| - m] != q[0] || r[|r| - 1] != q[m - 1];
        TailMismatch(q, r, m);
      } else {
        var pt, rt := p[|p| - m..], r[|r| - m..];
        forall i | 0 <= i < m
          ensures pt[i] == rt[i]
        {
          assert r[|r| - m + i] == p[|r| - m + i + |p| - |r|];
        }
        assert pt == rt;
      }
      assert forall i :: 0 <= i < |q[m..]| ==> q[m..][i] == q[m + i];
    }
  }
}
