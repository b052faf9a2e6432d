/** The RAM-usage header that `updateFileHeader` (server.ts) keeps at the top
    of a synced source file, once the game has reported the script's RAM
    cost. The file's text and the rendered RAM figure are inputs; reading
    and writing the file are left to the caller. */
module Header {
  import opened Text

  const Marker := "// Ram usage: "

  /** The header line for a RAM figure, as rendered by the template literal. */
  function UsageText(ram: string): string {
    Marker + ram + "GB"
  }

  /** The characters JavaScript's regular-expression `.` does not match. */
  predicate IsLineTerminator(c: char) {
    c == '\n' || c == '\r' || c == '\U{2028}' || c == '\U{2029}'
  }

  /** Where the line that runs from index `i` ends: the first line
      terminator at or after `i`, or the end of the text. */
  function LineEnd(s: string, i: nat): (e: nat)
    requires i <= |s|
    ensures i <= e <= |s|
    ensures forall k :: i <= k < e ==> !IsLineTerminator(s[k])
    ensures e == |s| || IsLineTerminator(s[e])
    decreases |s| - i
  {
    if i == |s| || IsLineTerminator(s[i]) then i else LineEnd(s, i + 1)
  }

  /** The regular-expression replace of line 31: the first `// Ram usage: `
      and the rest of its line (the greedy `(.*)`) give way to `usage`. */
  function ReplaceUsageLine(file: string, usage: string): string {
    match IndexOf(file, Marker)
    case None => file
    case Some(i) => file[..i] + usage + file[LineEnd(file, i + |Marker|)..]
  }

  /** What `updateFileHeader` writes back, if anything. */
  datatype HeaderWrite = Unchanged | Rewritten(text: string)

  /** `updateFileHeader`: no write when the exact header is already there
      (which ends the loop of writes and change events); otherwise the
      first header line is replaced, or a header and a blank line are put in
      front of a file that has none. Either way the new text carries the
      exact header, so the next update of the same figure writes nothing. */
  function UpdatedHeader(file: string, ram: string): (w: HeaderWrite)
    ensures w.Unchanged? <==> Contains(file, UsageText(ram))
    ensures w.Rewritten? ==> Contains(w.text, UsageText(ram))
    ensures w.Rewritten? && !Contains(file, Marker) ==> w.text == UsageText(ram) + "\n\n" + file
  {
    var usage := UsageText(ram);
    if Contains(file, usage) then Unchanged
    else if Contains(file, Marker) then
      var text := ReplaceUsageLine(file, usage);
      var i := IndexOf(file, Marker).value;
      assert text[i..i + |usage|] == usage;
      assert OccursAt(text, usage, i);
      Rewritten(text)
    else
      var text := usage + "\n\n" + file;
      assert text[0..|usage|] == usage;
      assert OccursAt(text, usage, 0);
      Rewritten(text)
  }

  /** A header update settles after one write: updating again with the same
      figure writes nothing. */
  lemma UpdateSettles(file: string, ram: string)
    requires UpdatedHeader(file, ram).Rewritten?
    ensures UpdatedHeader(UpdatedHeader(file, ram).text, ram).Unchanged?
  {
  }

  /** Line 31 on a file with an outdated header: the text before the first
      marker and the text from the end of its line on are kept, and what is
      replaced lies within that one line. */
  lemma ReplaceKeepsOtherLines(file: string, ram: string)
    requires Contains(file, Marker) && !Contains(file, UsageText(ram))
    ensures var i := IndexOf(file, Marker).value;
      var e := LineEnd(file, i + |Marker|);
      && UpdatedHeader(file, ram) == Rewritten(file[..i] + UsageText(ram) + file[e..])
      && StartsWith(file[i..e], Marker)
      && forall k :: i <= k < e ==> !IsLineTerminator(file[k])
  {
    var i := IndexOf(file, Marker).value;
    MarkerLine(file, i);
  }

  /** The line that holds a marker runs on past it, and the marker has no
      line terminator of its own. */
  lemma MarkerLine(file: string, i: nat)
    requires OccursAt(file, Marker, i)
    ensures var e := LineEnd(file, i + |Marker|);
      && StartsWith(file[i..e], Marker)
      && forall k :: i <= k < e ==> !IsLineTerminator(file[k])
  {
    var e := LineEnd(file, i + |Marker|);
    forall k | i <= k < i + |Marker|
      ensures !IsLineTerminator(file[k])
    {
      assert file[k] == file[i..i + |Marker|][k - i];
    }
    assert file[i..e][..|Marker|] == file[i..i + |Marker|];
  }

  /** The number of line terminators in a text. */
  function Terminators(s: string): nat {
    if s == [] then 0 else (if IsLineTerminator(s[0]) then 1 else 0) + Terminators(s[1..])
  }

  lemma {:induction false} TerminatorsAppend(a: string, b: string)
    ensures Terminators(a + b) == Terminators(a) + Terminators(b)
  {
    if a != [] {
      assert (a + b)[1..] == a[1..] + b;
      TerminatorsAppend(a[1..], b);
    } else {
      assert a + b == b;
    }
  }

  lemma {:induction false} NoTerminators(s: string)
    requires forall k :: 0 <= k < |s| ==> !IsLineTerminator(s[k])
    ensures Terminators(s) == 0
  {
    if s != [] {
      NoTerminators(s[1..]);
    }
  }

  lemma UsageTextSingleLine(ram: string)
    requires forall k :: 0 <= k < |ram| ==> !IsLineTerminator(ram[k])
    ensures Terminators(UsageText(ram)) == 0
  {
    var usage := UsageText(ram);
    forall k | 0 <= k < |usage|
      ensures !IsLineTerminator(usage[k])
    {
      if |Marker| <= k < |Marker| + |ram| {
        assert usage[k] == ram[k - |Marker|];
      }
    }
    NoTerminators(usage);
  }

  /** The header never changes how many lines the rest of the file has: a
      replaced header keeps the line count, a new header adds its own line
      and a blank one. (The rendered figure is a number, so it has no line
      terminator.) */
  lemma UpdateLineCount(file: string, ram: string)
    requires forall k :: 0 <= k < |ram| ==> !IsLineTerminator(ram[k])
    requires UpdatedHeader(file, ram).Rewritten?
    ensures Contains(file, Marker) ==> Terminators(UpdatedHeader(file, ram).text) == Terminators(file)
    ensures !Contains(file, Marker) ==> Terminators(UpdatedHeader(file, ram).text) == Terminators(file) + 2
  {
    UsageTextSingleLine(ram);
    if Contains(file, Marker) {
      ReplaceKeepsOtherLines(file, ram);
      var i := IndexOf(file, Marker).value;
      ReplacedLineCount(file, UsageText(ram), i, LineEnd(file, i + |Marker|));
    } else {
      PrependedLineCount(file, UsageText(ram));
    }
  }

  lemma ReplacedLineCount(file: string, usage: string, i: nat, e: nat)
    requires i <= e <= |file| && Terminators(usage) == 0
    requires forall k :: i <= k < e ==> !IsLineTerminator(file[k])
    ensures Terminators(file[..i] + usage + file[e..]) == Terminators(file)
  {
    assert forall k :: 0 <= k < e - i ==> !IsLineTerminator(file[i..e][k]);
    NoTerminators(file[i..e]);
    assert file == file[..i] + file[i..e] + file[e..];
    TerminatorsAppend(file[..i], file[i..e]);
    TerminatorsAppend(file[..i] + file[i..e], file[e..]);
    TerminatorsAppend(file[..i], usage);
    TerminatorsAppend(file[..i] + usage, file[e..]);
  }

  lemma PrependedLineCount(file: string, usage: string)
    requires Terminators(usage) == 0
    ensures Terminators(usage + "\n\n" + file) == Terminators(file) + 2
  {
    TerminatorsAppend(usage, "\n\n");
    TerminatorsAppend(usage + "\n\n", file);
    assert Terminators("\n\n") == 2 by {
      assert "\n\n"[1..] == "\n";
      assert "\n"[1..] == [];
    }
  }
}
