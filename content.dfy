/** The content fixer (`fixFileContent`, server.ts): literal rewrites that
    make transformed JavaScript loadable in the game, applied in a fixed
    order to the whole text. */
module Content {
  import opened Wrappers
  import opened Text

  const TsxImportEnd := ".tsx\";"
  const TsImportEnd := ".ts\";"
  const JsImportEnd := ".js\";"
  const AliasImport := "from \"@/"
  const RootImport := "from \"/"
  const DocumentAccess := "document."
  const IndirectDocumentAccess := "globalThis['document']."
  const GlobalDocument := "globalThis.document"
  const IndirectDocument := "globalThis['document']"
  const EvtReexport := "export { Evt as Evt };"
  const EvtPatch := "const Evt = Ir.Evt;\nexport { Evt };\n"

  /** Lines 53-55: import specifiers end in `.js` and are rooted at `/`. */
  function FixImports(code: string): string {
    ReplaceAll(ReplaceAll(ReplaceAll(code, TsxImportEnd, JsImportEnd), TsImportEnd, JsImportEnd), AliasImport, RootImport)
  }

  /** Lines 56-57, in that order: every direct `document.` becomes an
      indirect lookup, then what is left of `globalThis.document`. */
  function FixDocument(code: string): string {
    ReplaceAll(ReplaceAll(code, DocumentAccess, IndirectDocumentAccess), GlobalDocument, IndirectDocument)
  }

  /** `fixFileContent`: the import fixes, the document fixes, then the
      one-off patch of the first `Evt` re-export. None of the patterns it
      rewrites everywhere survives in its output. */
  function FixFileContent(code: string): (fixed: string)
    ensures !Contains(fixed, TsxImportEnd) && !Contains(fixed, TsImportEnd)
    ensures !Contains(fixed, AliasImport)
    ensures !Contains(fixed, DocumentAccess) && !Contains(fixed, GlobalDocument)
  {
    var imports := FixImports(code);
    var documents := FixDocument(imports);
    FixImportsComplete(code);
    FixDocumentComplete(imports);
    EvtPatchKeepsAbsent(documents);
    ReplaceFirst(documents, EvtReexport, EvtPatch)
  }

  /** After the import fixes no source-extension terminator and no `@/`
      alias is left. */
  lemma FixImportsComplete(code: string)
    ensures var fixed := FixImports(code);
      !Contains(fixed, TsxImportEnd) && !Contains(fixed, TsImportEnd) && !Contains(fixed, AliasImport)
  {
    var a := ReplaceAll(code, TsxImportEnd, JsImportEnd);
    var b := ReplaceAll(a, TsImportEnd, JsImportEnd);
    TsxImportsFixed(code);
    TsImportsFixed(a);
    AliasImportsFixed(b);
  }

  /** Line 53 leaves no `.tsx";`. */
  lemma TsxImportsFixed(code: string)
    ensures !Contains(ReplaceAll(code, TsxImportEnd, JsImportEnd), TsxImportEnd)
  {
    AbsentByChars(JsImportEnd, TsxImportEnd);
    LeftSafeByChars(TsxImportEnd, JsImportEnd);
    SeamFreeByChars(TsxImportEnd, JsImportEnd);
    ReplaceAllRemoves(code, TsxImportEnd, JsImportEnd);
  }

  /** Line 54 leaves no `.ts";` and brings back no `.tsx";`. */
  lemma TsImportsFixed(a: string)
    ensures var b := ReplaceAll(a, TsImportEnd, JsImportEnd);
      !Contains(b, TsImportEnd) && (!Contains(a, TsxImportEnd) ==> !Contains(b, TsxImportEnd))
  {
    JsEndReplacesTs();
    ReplaceAllRemoves(a, TsImportEnd, JsImportEnd);
    if !Contains(a, TsxImportEnd) {
      JsEndKeepsOutTsx();
      ReplaceAllKeepsAbsent(a, TsImportEnd, JsImportEnd, TsxImportEnd);
    }
  }

  lemma JsEndReplacesTs()
    ensures !Contains(JsImportEnd, TsImportEnd) && LeftSafe(TsImportEnd, JsImportEnd)
    ensures SeamFree(TsImportEnd, JsImportEnd)
  {
    AbsentByChars(JsImportEnd, TsImportEnd);
    LeftSafeByChars(TsImportEnd, JsImportEnd);
    SeamFreeByChars(TsImportEnd, JsImportEnd);
  }

  lemma JsEndKeepsOutTsx()
    ensures !Contains(JsImportEnd, TsxImportEnd) && LeftSafe(TsxImportEnd, JsImportEnd)
    ensures RightSafe(TsxImportEnd, TsImportEnd, JsImportEnd)
  {
    AbsentByChars(JsImportEnd, TsxImportEnd);
    LeftSafeByChars(TsxImportEnd, JsImportEnd);
    RightSafeByChars(TsxImportEnd, TsImportEnd, JsImportEnd, 0);
  }

  /** Line 55 leaves no `from "@/` and brings back no `.tsx";` or `.ts";`. */
  lemma AliasImportsFixed(b: string)
    ensures var c := ReplaceAll(b, AliasImport, RootImport);
      && !Contains(c, AliasImport)
      && (!Contains(b, TsxImportEnd) ==> !Contains(c, TsxImportEnd))
      && (!Contains(b, TsImportEnd) ==> !Contains(c, TsImportEnd))
  {
    RootReplacesAlias();
    ReplaceAllRemoves(b, AliasImport, RootImport);
    if !Contains(b, TsxImportEnd) {
      RootKeepsOut(TsxImportEnd);
      ReplaceAllKeepsAbsent(b, AliasImport, RootImport, TsxImportEnd);
    }
    if !Contains(b, TsImportEnd) {
      RootKeepsOut(TsImportEnd);
      ReplaceAllKeepsAbsent(b, AliasImport, RootImport, TsImportEnd);
    }
  }

  lemma RootReplacesAlias()
    ensures !Contains(RootImport, AliasImport) && LeftSafe(AliasImport, RootImport)
    ensures SeamFree(AliasImport, RootImport)
  {
    AbsentByChars(RootImport, AliasImport);
    LeftSafeByChars(AliasImport, RootImport);
    SeamFreeByChars(AliasImport, RootImport);
  }

  lemma RootKeepsOut(q: string)
    requires q == TsxImportEnd || q == TsImportEnd
    ensures !Contains(RootImport, q) && LeftSafe(q, RootImport) && RightSafe(q, AliasImport, RootImport)
  {
    AbsentByChars(RootImport, q);
    LeftSafeByChars(q, RootImport);
    RightSafeByChars(q, AliasImport, RootImport, 0);
  }

  /** The document fixes remove every direct `document.` and every
      `globalThis.document`, and bring back none of the import patterns. */
  lemma FixDocumentComplete(code: string)
    requires !Contains(code, TsxImportEnd) && !Contains(code, TsImportEnd) && !Contains(code, AliasImport)
    ensures var fixed := FixDocument(code);
      && !Contains(fixed, TsxImportEnd) && !Contains(fixed, TsImportEnd) && !Contains(fixed, AliasImport)
      && !Contains(fixed, DocumentAccess) && !Contains(fixed, GlobalDocument)
  {
    var a := ReplaceAll(code, DocumentAccess, IndirectDocumentAccess);
    DocumentAccessFixed(code);
    GlobalDocumentFixed(a);
  }

  /** Line 56 leaves no `document.` and brings back no import pattern. */
  lemma DocumentAccessFixed(code: string)
    requires !Contains(code, TsxImportEnd) && !Contains(code, TsImportEnd) && !Contains(code, AliasImport)
    ensures var a := ReplaceAll(code, DocumentAccess, IndirectDocumentAccess);
      && !Contains(a, DocumentAccess)
      && !Contains(a, TsxImportEnd) && !Contains(a, TsImportEnd) && !Contains(a, AliasImport)
  {
    AbsentByChars(IndirectDocumentAccess, DocumentAccess);
    LeftSafeByChars(DocumentAccess, IndirectDocumentAccess);
    SeamFreeByChars(DocumentAccess, IndirectDocumentAccess);
    ReplaceAllRemoves(code, DocumentAccess, IndirectDocumentAccess);
    KeepsAbsentAfterDocumentAccess(code, TsxImportEnd);
    KeepsAbsentAfterDocumentAccess(code, TsImportEnd);
    KeepsAbsentAfterDocumentAccess(code, AliasImport);
  }

  /** Line 57 leaves no `globalThis.document` and brings back no import
      pattern and no `document.`. */
  lemma GlobalDocumentFixed(a: string)
    requires !Contains(a, DocumentAccess)
    requires !Contains(a, TsxImportEnd) && !Contains(a, TsImportEnd) && !Contains(a, AliasImport)
    ensures var b := ReplaceAll(a, GlobalDocument, IndirectDocument);
      && !Contains(b, GlobalDocument) && !Contains(b, DocumentAccess)
      && !Contains(b, TsxImportEnd) && !Contains(b, TsImportEnd) && !Contains(b, AliasImport)
  {
    AbsentByChars(IndirectDocument, GlobalDocument);
    LeftSafeByChars(GlobalDocument, IndirectDocument);
    SeamFreeByChars(GlobalDocument, IndirectDocument);
    ReplaceAllRemoves(a, GlobalDocument, IndirectDocument);
    KeepsAbsentAfterGlobalDocument(a, TsxImportEnd);
    KeepsAbsentAfterGlobalDocument(a, TsImportEnd);
    KeepsAbsentAfterGlobalDocument(a, AliasImport);
    KeepsAbsentAfterGlobalDocument(a, DocumentAccess);
  }

  /** The `document.` rewrite (line 56) cannot create an import pattern. */
  lemma KeepsAbsentAfterDocumentAccess(code: string, q: string)
    requires q == TsxImportEnd || q == TsImportEnd || q == AliasImport
    requires !Contains(code, q)
    ensures !Contains(ReplaceAll(code, DocumentAccess, IndirectDocumentAccess), q)
  {
    IndirectAccessLacks(q);
    IndirectAccessLeft(q);
    IndirectAccessRight(q);
    ReplaceAllKeepsAbsent(code, DocumentAccess, IndirectDocumentAccess, q);
  }

  lemma IndirectAccessLacks(q: string)
    requires q == TsxImportEnd || q == TsImportEnd || q == AliasImport
    ensures !Contains(IndirectDocumentAccess, q)
  {
    AbsentByChars(IndirectDocumentAccess, q);
  }

  lemma IndirectAccessLeft(q: string)
    requires q == TsxImportEnd || q == TsImportEnd || q == AliasImport
    ensures LeftSafe(q, IndirectDocumentAccess)
  {
    LeftSafeByChars(q, IndirectDocumentAccess);
  }

  lemma IndirectAccessRight(q: string)
    requires q == TsxImportEnd || q == TsImportEnd || q == AliasImport
    ensures RightSafe(q, DocumentAccess, IndirectDocumentAccess)
  {
    if q == AliasImport {
      RightSafeByChars(q, DocumentAccess, IndirectDocumentAccess, 0);
    } else {
      // `globalThis['document'].` ends with the `.` of `document.`, so the
      // text after it is what followed `document.` before.
      RightSafeByChars(q, DocumentAccess, IndirectDocumentAccess, 1);
    }
  }

  /** The `globalThis.document` rewrite (line 57) creates neither an import
      pattern nor a direct `document.`. */
  lemma KeepsAbsentAfterGlobalDocument(code: string, q: string)
    requires q == TsxImportEnd || q == TsImportEnd || q == AliasImport || q == DocumentAccess
    requires !Contains(code, q)
    ensures !Contains(ReplaceAll(code, GlobalDocument, IndirectDocument), q)
  {
    IndirectDocumentKeepsOut(q);
    ReplaceAllKeepsAbsent(code, GlobalDocument, IndirectDocument, q);
  }

  lemma IndirectDocumentKeepsOut(q: string)
    requires q == TsxImportEnd || q == TsImportEnd || q == AliasImport || q == DocumentAccess
    ensures !Contains(IndirectDocument, q) && LeftSafe(q, IndirectDocument)
    ensures RightSafe(q, GlobalDocument, IndirectDocument)
  {
    IndirectDocumentLacks(q);
    IndirectDocumentLeft(q);
    IndirectDocumentRight(q);
  }

  lemma IndirectDocumentLacks(q: string)
    requires q == TsxImportEnd || q == TsImportEnd || q == AliasImport || q == DocumentAccess
    ensures !Contains(IndirectDocument, q)
  {
    AbsentByChars(IndirectDocument, q);
  }

  lemma IndirectDocumentLeft(q: string)
    requires q == TsxImportEnd || q == TsImportEnd || q == AliasImport || q == DocumentAccess
    ensures LeftSafe(q, IndirectDocument)
  {
    LeftSafeByChars(q, IndirectDocument);
  }

  lemma IndirectDocumentRight(q: string)
    requires q == TsxImportEnd || q == TsImportEnd || q == AliasImport || q == DocumentAccess
    ensures RightSafe(q, GlobalDocument, IndirectDocument)
  {
    RightSafeByChars(q, GlobalDocument, IndirectDocument, 0);
  }

  /** The `Evt` patch (lines 59-62) creates none of the rewritten patterns. */
  lemma EvtPatchKeepsAbsent(code: string)
    requires && !Contains(code, TsxImportEnd) && !Contains(code, TsImportEnd) && !Contains(code, AliasImport)
             && !Contains(code, DocumentAccess) && !Contains(code, GlobalDocument)
    ensures var fixed := ReplaceFirst(code, EvtReexport, EvtPatch);
      && !Contains(fixed, TsxImportEnd) && !Contains(fixed, TsImportEnd) && !Contains(fixed, AliasImport)
      && !Contains(fixed, DocumentAccess) && !Contains(fixed, GlobalDocument)
  {
    KeepsAbsentAfterEvtPatch(code, TsxImportEnd);
    KeepsAbsentAfterEvtPatch(code, TsImportEnd);
    KeepsAbsentAfterEvtPatch(code, AliasImport);
    KeepsAbsentAfterEvtPatch(code, DocumentAccess);
    KeepsAbsentAfterEvtPatch(code, GlobalDocument);
  }

  lemma KeepsAbsentAfterEvtPatch(code: string, q: string)
    requires q == TsxImportEnd || q == TsImportEnd || q == AliasImport || q == DocumentAccess || q == GlobalDocument
    requires !Contains(code, q)
    ensures !Contains(ReplaceFirst(code, EvtReexport, EvtPatch), q)
  {
    EvtPatchSafe(q);
    ReplaceFirstKeepsAbsent(code, EvtReexport, EvtPatch, q);
  }

  lemma EvtPatchSafe(q: string)
    requires q == TsxImportEnd || q == TsImportEnd || q == AliasImport || q == DocumentAccess || q == GlobalDocument
    ensures |q| > 0 && !Contains(EvtPatch, q) && LeftSafe(q, EvtPatch) && RightSafe(q, EvtReexport, EvtPatch)
  {
    EvtPatchLacks(q);
    EvtPatchLeft(q);
    EvtPatchSeam(q);
  }

  lemma EvtPatchLacks(q: string)
    requires q == TsxImportEnd || q == TsImportEnd || q == AliasImport || q == DocumentAccess || q == GlobalDocument
    ensures !Contains(EvtPatch, q)
  {
    LacksQuote(EvtPatch);
    LacksD(EvtPatch);
    LacksG(EvtPatch);
    LacksPatterns(EvtPatch, q);
  }

  /** Each rewritten pattern has a `"`, a `d` or a `g`, so a text with none
      of these three characters has none of the patterns. */
  lemma LacksPatterns(r: string, q: string)
    requires '"' !in r && 'd' !in r && 'g' !in r
    requires q == TsxImportEnd || q == TsImportEnd || q == AliasImport || q == DocumentAccess || q == GlobalDocument
    ensures !Contains(r, q)
  {
    if q == TsxImportEnd {
      AbsentByChar(r, q, 4);
    } else if q == TsImportEnd {
      AbsentByChar(r, q, 3);
    } else if q == AliasImport {
      AbsentByChar(r, q, 5);
    } else {
      AbsentByChar(r, q, 0);
    }
  }

  lemma LacksQuote(r: string)
    requires r == EvtPatch || r == EvtReexport
    ensures '"' !in r
  {
    if r == EvtPatch { PatchLacksQuote(); } else { ReexportLacksQuote(); }
  }

  lemma LacksD(r: string)
    requires r == EvtPatch || r == EvtReexport
    ensures 'd' !in r
  {
    if r == EvtPatch { PatchLacksD(); } else { ReexportLacksD(); }
  }

  lemma LacksG(r: string)
    requires r == EvtPatch || r == EvtReexport
    ensures 'g' !in r
  {
    if r == EvtPatch { PatchLacksG(); } else { ReexportLacksG(); }
  }

  lemma PatchLacksQuote() ensures '"' !in EvtPatch {}
  lemma PatchLacksD() ensures 'd' !in EvtPatch {}
  lemma PatchLacksG() ensures 'g' !in EvtPatch {}
  lemma ReexportLacksQuote() ensures '"' !in EvtReexport {}
  lemma ReexportLacksD() ensures 'd' !in EvtReexport {}
  lemma ReexportLacksG() ensures 'g' !in EvtReexport {}

  lemma EvtPatchLeft(q: string)
    requires q == TsxImportEnd || q == TsImportEnd || q == AliasImport || q == DocumentAccess || q == GlobalDocument
    ensures LeftSafe(q, EvtPatch)
  {
    LeftSafeByChars(q, EvtPatch);
  }

  lemma EvtPatchSeam(q: string)
    requires q == TsxImportEnd || q == TsImportEnd || q == AliasImport || q == DocumentAccess || q == GlobalDocument
    ensures SeamFree(q, EvtPatch)
  {
    // The patch ends with a line feed, which no pattern contains.
    assert '\n' !in q;
    SeamFreeByLastChar(q, EvtPatch);
  }

  /** Once fixed, a text is left alone by every global rewrite of lines
      53-57: in particular a second `document.` rewrite changes nothing. */
  lemma GlobalRewritesSettle(code: string)
    ensures var fixed := FixFileContent(code);
      FixDocument(FixImports(fixed)) == fixed
  {
    var fixed := FixFileContent(code);
    ReplaceAllAbsent(fixed, TsxImportEnd, JsImportEnd);
    ReplaceAllAbsent(fixed, TsImportEnd, JsImportEnd);
    ReplaceAllAbsent(fixed, AliasImport, RootImport);
    ReplaceAllAbsent(fixed, DocumentAccess, IndirectDocumentAccess);
    ReplaceAllAbsent(fixed, GlobalDocument, IndirectDocument);
  }

  /** The order of lines 56 and 57 shows: `globalThis.document.x` has its
      `document.` rewritten first, leaving no `globalThis.document` for
      line 57 to find. */
  lemma DocumentRewriteOrder()
    ensures FixFileContent("globalThis.document.x") == "globalThis.globalThis['document'].x"
  {
    DocumentRewriteSteps("globalThis.document.x", "globalThis.globalThis['document'].x");
  }

  lemma DocumentRewriteSteps(s: string, t: string)
    requires s == "globalThis.document.x" && t == "globalThis.globalThis['document'].x"
    ensures FixFileContent(s) == t
  {
    ImportsAbsentFromGlobalAccess(s);
    DocumentAccessRewritten(s, t);
    GlobalDocumentAbsent(t);
    NoEvtInIndirectAccess(t);
  }

  lemma NoEvtInIndirectAccess(t: string)
    requires t == "globalThis.globalThis['document'].x"
    ensures ReplaceFirst(t, EvtReexport, EvtPatch) == t
  {
    AbsentByChars(t, EvtReexport);
    ReplaceFirstAbsent(t, EvtReexport, EvtPatch);
  }

  lemma ImportsAbsentFromGlobalAccess(s: string)
    requires s == "globalThis.document.x"
    ensures FixImports(s) == s
  {
    AbsentByChars(s, TsxImportEnd);
    AbsentByChars(s, TsImportEnd);
    AbsentByChars(s, AliasImport);
    ReplaceAllAbsent(s, TsxImportEnd, JsImportEnd);
    ReplaceAllAbsent(s, TsImportEnd, JsImportEnd);
    ReplaceAllAbsent(s, AliasImport, RootImport);
  }

  lemma DocumentAccessRewritten(s: string, t: string)
    requires s == "globalThis.document.x" && t == "globalThis.globalThis['document'].x"
    ensures ReplaceAll(s, DocumentAccess, IndirectDocumentAccess) == t
  {
    DocumentAtEleven(s);
    assert s[20..] == "x";
    assert !Contains("x", DocumentAccess);
    ReplaceAllOnce(s, DocumentAccess, IndirectDocumentAccess, 11);
    assert s[..11] == "globalThis.";
    IndirectAccessSpelled();
  }

  lemma IndirectAccessSpelled()
    ensures "globalThis." + IndirectDocumentAccess + "x" == "globalThis.globalThis['document'].x"
  {
  }

  lemma DocumentAtEleven(s: string)
    requires s == "globalThis.document.x"
    ensures IndexOf(s, DocumentAccess) == Some(11)
  {
    assert s[11..20] == DocumentAccess;
    forall j: nat | j < 11
      ensures !OccursAt(s, DocumentAccess, j)
    {
      assert s[j] != 'd';
      assert s[j..j + 9][0] == s[j];
    }
    IndexOfAt(s, DocumentAccess, 11);
  }

  lemma GlobalDocumentAbsent(t: string)
    requires t == "globalThis.globalThis['document'].x"
    ensures ReplaceAll(t, GlobalDocument, IndirectDocument) == t
  {
    AbsentByChars(t, GlobalDocument);
    ReplaceAllAbsent(t, GlobalDocument, IndirectDocument);
  }

  /** Line 59 patches only the first `Evt` re-export: of two, the second
      stays as it was. */
  lemma OnlyFirstEvtPatched()
    ensures FixFileContent(EvtReexport + EvtReexport) == EvtPatch + EvtReexport
  {
    NothingToFixInEvt(EvtReexport + EvtReexport);
    ReplaceFirstAtStart(EvtReexport, EvtReexport, EvtPatch);
  }

  lemma NothingToFixInEvt(s: string)
    requires s == EvtReexport + EvtReexport
    ensures FixDocument(FixImports(s)) == s
  {
    EvtLacks(s, TsxImportEnd);
    EvtLacks(s, TsImportEnd);
    EvtLacks(s, AliasImport);
    EvtLacks(s, DocumentAccess);
    EvtLacks(s, GlobalDocument);
    ReplaceAllAbsent(s, TsxImportEnd, JsImportEnd);
    ReplaceAllAbsent(s, TsImportEnd, JsImportEnd);
    ReplaceAllAbsent(s, AliasImport, RootImport);
    ReplaceAllAbsent(s, DocumentAccess, IndirectDocumentAccess);
    ReplaceAllAbsent(s, GlobalDocument, IndirectDocument);
  }

  lemma EvtLacks(s: string, q: string)
    requires s == EvtReexport + EvtReexport
    requires q == TsxImportEnd || q == TsImportEnd || q == AliasImport || q == DocumentAccess || q == GlobalDocument
    ensures !Contains(s, q)
  {
    LacksQuote(EvtReexport);
    LacksD(EvtReexport);
    LacksG(EvtReexport);
    LacksPatterns(s, q);
  }
}
