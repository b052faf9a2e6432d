/** `syncFile` (server.ts): the early-return pipeline that pushes one changed
    file to the game. The file read, the three transformers and the HTTP
    exchange are inputs; what the model computes is which gate stops the
    pipeline, which transformer is used, and what is uploaded. */
module Sync {
  import opened Wrappers
  import opened Text
  import opened FileName
  import opened PosixPath
  import opened Content

  const BundleMarker := "// @bundlefile"
  const EsBundleMarker := "// @esbundlefile"

  /** How a source is turned into a game script. */
  datatype Strategy =
    | SingleFile    // swc, one file at a time
    | NativeBundle  // the `deno bundle` subprocess
    | EsBundle      // esbuild with bundling on

  /** Lines 136-142: the esbuild marker wins over the bundle marker, which
      wins over the single-file transform. */
  function SelectStrategy(file: string): (s: Strategy)
    ensures s == EsBundle <==> Contains(file, EsBundleMarker)
    ensures s == NativeBundle <==> Contains(file, BundleMarker) && !Contains(file, EsBundleMarker)
    ensures s == SingleFile <==> !Contains(file, BundleMarker) && !Contains(file, EsBundleMarker)
  {
    if Contains(file, EsBundleMarker) then EsBundle
    else if Contains(file, BundleMarker) then NativeBundle
    else SingleFile
  }

  /** What a transformer hands back: its text, nothing (`null`), or a
      rejected promise that ends `syncFile` with an unhandled error. */
  datatype Transformed = Output(code: string) | NoOutput | Rejected

  /** Lines 138-142. The single-file transform (lines 66-82) catches its own
      errors and returns `null`, so it never rejects; the bundlers are given
      as their results, since they read the file themselves. */
  function Transform(strategy: Strategy, file: string, swc: string -> Option<string>,
                     bundled: Transformed, esbundled: Transformed): (t: Transformed)
    ensures strategy == SingleFile ==> t != Rejected && (t.Output? <==> swc(file).Some?)
    ensures strategy == SingleFile && t.Output? ==> t.code == swc(file).value
    ensures strategy == NativeBundle ==> t == bundled
    ensures strategy == EsBundle ==> t == esbundled
  {
    match strategy
    case EsBundle => esbundled
    case NativeBundle => bundled
    case SingleFile => if swc(file).Some? then Output(swc(file).value) else NoOutput
  }

  /** Where the game's API server is reached. */
  datatype Connection = Connection(apiToken: string, apiHost: string, apiPort: int)

  /** The POST of lines 150-162, before JSON and base64 encoding. */
  datatype Request = Request(host: string, port: int, token: string, filename: string, code: string)

  /** The parsed JSON reply: `success === true`, and `data.ramUsage` rendered
      as text, `None` when `data` is missing. */
  datatype Reply = Reply(success: bool, ramUsage: Option<string>)

  /** An HTTP response; `reply` is `None` when the body is not JSON. */
  datatype Response = Response(status: int, reply: Option<Reply>)

  /** How the upload ended. */
  datatype Answer =
    | Unreachable         // `fetch` failed; logged
    | HttpError(status: int)  // any status but 200; logged
    | NotSaved            // 200, but `success` is not `true`; silent
    | HeaderUpdated(ram: string)  // 200 and saved: `updateFileHeader` runs
    | ReplyRejected       // 200, but the body or its `data` is unusable: unhandled error

  /** Lines 163-186, given what `fetch` produced (`None` for a failed fetch). */
  function AnswerOf(response: Option<Response>): (a: Answer)
    ensures a.HeaderUpdated? <==>
      response.Some? && response.value.status == 200 && response.value.reply.Some?
      && response.value.reply.value.success && response.value.reply.value.ramUsage.Some?
    ensures a.HeaderUpdated? ==> a.ram == response.value.reply.value.ramUsage.value
    ensures a == Unreachable <==> response.None?
    ensures a.HttpError? <==> response.Some? && response.value.status != 200
    ensures a.HttpError? ==> a.status == response.value.status
    ensures a == NotSaved <==>
      response.Some? && response.value.status == 200 && response.value.reply.Some?
      && !response.value.reply.value.success
    ensures a == ReplyRejected <==>
      response.Some? && response.value.status == 200
      && (response.value.reply.None? || (response.value.reply.value.success && response.value.reply.value.ramUsage.None?))
  {
    match response
    case None => Unreachable
    case Some(res) =>
      if res.status != 200 then HttpError(res.status)
      else match res.reply
        case None => ReplyRejected
        case Some(reply) =>
          if !reply.success then NotSaved
          else match reply.ramUsage
            case None => ReplyRejected
            case Some(ram) => HeaderUpdated(ram)
  }

  /** What `syncFile` did. */
  datatype Outcome =
    | InvalidName                  // lines 120-124
    | NotAllowed(filename: string) // lines 126-129
    | Unreadable                   // lines 132-134
    | TransformFailed(strategy: Strategy)    // lines 144-148
    | TransformRejected(strategy: Strategy)  // a bundler's promise rejected
    | Uploaded(request: Request, answer: Answer)

  /** Line 120: `false` and the empty name both fail the check. */
  predicate ValidName(relativePath: string) {
    FixFilename(relativePath).Some? && FixFilename(relativePath).value != ""
  }

  /** Line 126: the extension of the in-game name is on the allow-list. */
  predicate AllowedName(relativePath: string) {
    ValidName(relativePath) && ExtName(FixFilename(relativePath).value) in Allowed
  }

  /** Line 132: `null` (a failed read) and the empty text both fail. */
  predicate Readable(read: Option<string>) {
    read.Some? && read.value != ""
  }

  /** The transformed code of a readable file. */
  function CodeOf(read: Option<string>, swc: string -> Option<string>,
                  bundled: Transformed, esbundled: Transformed): Transformed
    requires Readable(read)
  {
    Transform(SelectStrategy(read.value), read.value, swc, bundled, esbundled)
  }

  /** `syncFile`, for a path already made relative to the watched directory.
      The gates run in the source's order, each only when the ones before it
      passed; a file is uploaded exactly when all of them pass, under its
      canonical in-game name, with its transformed code run through the
      content fixer, so the upload carries no direct `document.` access. */
  function SyncFile(conn: Connection, relativePath: string, read: Option<string>,
                    swc: string -> Option<string>, bundled: Transformed, esbundled: Transformed,
                    response: Option<Response>): (o: Outcome)
    ensures o == InvalidName <==> !ValidName(relativePath)
    ensures o.NotAllowed? <==> ValidName(relativePath) && !AllowedName(relativePath)
    ensures o.NotAllowed? ==> o.filename == FixFilename(relativePath).value
    ensures o == Unreadable <==> AllowedName(relativePath) && !Readable(read)
    ensures o.TransformFailed? <==>
      AllowedName(relativePath) && Readable(read)
      && CodeOf(read, swc, bundled, esbundled) in {NoOutput, Output("")}
    ensures o.TransformRejected? <==>
      AllowedName(relativePath) && Readable(read) && CodeOf(read, swc, bundled, esbundled) == Rejected
    ensures o.TransformFailed? || o.TransformRejected? ==> o.strategy == SelectStrategy(read.value)
    ensures o.Uploaded? <==>
      AllowedName(relativePath) && Readable(read)
      && CodeOf(read, swc, bundled, esbundled).Output? && CodeOf(read, swc, bundled, esbundled).code != ""
    ensures o.Uploaded? ==>
      && o.request == Request(conn.apiHost, conn.apiPort, conn.apiToken, FixFilename(relativePath).value,
                              FixFileContent(CodeOf(read, swc, bundled, esbundled).code))
      && ExtName(o.request.filename) in Allowed
      && !Contains(o.request.code, DocumentAccess)
      && o.answer == AnswerOf(response)
  {
    match FixFilename(relativePath)
    case None => InvalidName
    case Some(filename) =>
      if filename == "" then InvalidName
      else if ExtName(filename) !in Allowed then NotAllowed(filename)
      else if !Readable(read) then Unreadable
      else
        var file := read.value;
        var strategy := SelectStrategy(file);
        match Transform(strategy, file, swc, bundled, esbundled)
        case Rejected => TransformRejected(strategy)
        case NoOutput => TransformFailed(strategy)
        case Output(code) =>
          if code == "" then TransformFailed(strategy)
          else Uploaded(Request(conn.apiHost, conn.apiPort, conn.apiToken, filename, FixFileContent(code)),
                        AnswerOf(response))
  }

  /** A file with the esbuild marker is built by esbuild alone: neither the
      single-file transform nor `deno bundle` has any say in the outcome. */
  lemma EsBundleDecides(conn: Connection, relativePath: string, file: string,
                        swc: string -> Option<string>, bundled: Transformed,
                        swc': string -> Option<string>, bundled': Transformed,
                        esbundled: Transformed, response: Option<Response>)
    requires Contains(file, EsBundleMarker)
    ensures SyncFile(conn, relativePath, Some(file), swc, bundled, esbundled, response)
         == SyncFile(conn, relativePath, Some(file), swc', bundled', esbundled, response)
  {
  }

  /** The last character of a rooted name is the last character of the name. */
  lemma RootedLast(stem: string)
    requires |stem| > 0
    ensures |Rooted(stem)| > 0 && Rooted(stem)[|Rooted(stem)| - 1] == stem[|stem| - 1]
  {
  }

  /** A TypeScript source `x.ts` or `x.tsx` is not on the allow-list by its
      own extension, but its canonical name `x.js` is, so it passes the name
      and extension gates (when `x` has no space and no `.ts`, and does not
      end in `.` or `/`). */
  lemma TypeScriptPassesGates(stem: string)
    requires |stem| > 0 && ' ' !in stem && !Contains(stem, ".ts")
    requires stem[|stem| - 1] != '/' && stem[|stem| - 1] != '.'
    ensures AllowedName(stem + ".ts") && AllowedName(stem + ".tsx")
    ensures FixFilename(stem + ".ts").value == FixFilename(stem + ".tsx").value == Rooted(stem) + ".js"
  {
    FixFilenameEndings(stem);
    RootedLast(stem);
    JsNameAllowed(Rooted(stem));
  }

  /** Any name of the form `x.js`, where `x` does not end in `.` or `/`, has
      an allowed extension. */
  lemma JsNameAllowed(base: string)
    requires |base| > 0 && base[|base| - 1] != '/' && base[|base| - 1] != '.'
    ensures ExtName(base + ".js") in Allowed
  {
    assert '.' !in ".js"[1..] && '/' !in ".js";
    ExtNameOfName(base, ".js");
  }

  /** The watched directory itself has the empty relative path, which
      `fixFilename` passes through unchanged and line 120 then rejects. */
  lemma EmptyPathRejected()
    ensures FixFilename("") == Some("") && !ValidName("")
  {
    assert !Contains("", ".tsx") && !Contains("", ".ts");
  }

  /** A TypeScript source whose name has a `.ts` before its ending keeps
      that ending, since only the first `.ts` is rewritten, and so it is
      refused by the allow-list and never uploaded. */
  lemma InnerTsBlocksUpload()
    ensures FixFilename("x.tsconfig.ts") == Some("x.jsconfig.ts")
    ensures !AllowedName("x.tsconfig.ts")
  {
    InnerTsRewritten("x.tsconfig.ts");
    InnerTsExtension("x.jsconfig", ".ts");
    InnerTsSpelled();
    TsNotAllowed();
  }

  lemma InnerTsRewritten(s: string)
    requires s == "x.tsconfig.ts"
    ensures FixFilename(s) == Some("x.jsconfig.ts")
  {
    InnerTsPlain(s);
    ReplaceFirstAbsent(s, ".tsx", ".js");
    InnerTsFound(s);
    ReplaceFirstAt(s, ".ts", ".js", 1);
    InnerTsSplice(s);
  }

  lemma InnerTsPlain(s: string)
    requires s == "x.tsconfig.ts"
    ensures ' ' !in s && !NeedsRoot(s) && !Contains(s, ".tsx")
  {
    AbsentByChars(s, ".tsx");
  }

  lemma InnerTsFound(s: string)
    requires s == "x.tsconfig.ts"
    ensures FirstOccurrence(s, ".ts", 1)
  {
    OccursByChars(s, ".ts", 1);
    assert !OccursAt(s, ".ts", 0) by { assert s[0..3][0] != '.'; }
  }

  lemma InnerTsSplice(s: string)
    requires s == "x.tsconfig.ts"
    ensures s[..1] + ".js" + s[4..] == "x.jsconfig.ts"
  {
  }

  lemma InnerTsExtension(stem: string, ext: string)
    requires stem == "x.jsconfig" && ext == ".ts"
    ensures ExtName(stem + ext) == ".ts"
  {
    assert '.' !in ext[1..] && '/' !in ext;
    ExtNameOfName(stem, ext);
  }

  lemma InnerTsSpelled()
    ensures "x.jsconfig" + ".ts" == "x.jsconfig.ts"
  {
  }

  lemma TsNotAllowed()
    ensures ".ts" !in Allowed
  {
    assert ".ts"[1] != Allowed[0][1] && |".ts"| != |Allowed[1]|;
    assert ".ts"[1] != Allowed[2][1] && ".ts"[2] != Allowed[3][2];
  }

  /** A dot file keeps its leading `.`: `dir/.ts` becomes `/dir/.js`, whose
      last segment `.js` has no extension, so the allow-list refuses it. */
  lemma DotFileRefused()
    ensures FixFilename("dir/.ts") == Some("/dir/.js")
    ensures !AllowedName("dir/.ts")
  {
    DotFileRooted("dir/.ts", "/dir/.ts");
    DotFileRewritten("/dir/.ts");
    DotFileSegment("/dir/.js");
    RefusedWithoutExtension("dir/.ts", "/dir/.js");
  }

  /** A name whose last segment has no extension is refused by the
      allow-list, which has no empty entry. */
  lemma RefusedWithoutExtension(relative: string, name: string)
    requires ' ' !in relative && RewriteExtension(Rooted(relative)) == name
    requires name != [] && ExtName(name) == []
    ensures FixFilename(relative) == Some(name) && !AllowedName(relative)
  {
    assert |Allowed[0]| > 0 && |Allowed[1]| > 0 && |Allowed[2]| > 0 && |Allowed[3]| > 0;
  }

  lemma DotFileRooted(s: string, rooted: string)
    requires s == "dir/.ts" && rooted == "/dir/.ts"
    ensures ' ' !in s && Rooted(s) == rooted
  {
    assert s[3] == '/';
    assert !StartsWith(s, "/") by { assert s[..1][0] == 'd'; }
  }

  lemma DotFileRewritten(s: string)
    requires s == "/dir/.ts"
    ensures RewriteExtension(s) == "/dir/.js"
  {
    AbsentByChars(s, ".tsx");
    ReplaceFirstAbsent(s, ".tsx", ".js");
    OccursByChars(s, ".ts", 5);
    forall j: nat | j < 5
      ensures !OccursAt(s, ".ts", j)
    {
      assert s[j..j + 3][0] == s[j] != '.';
    }
    ReplaceFirstAt(s, ".ts", ".js", 5);
    DotFileSplice(s);
  }

  lemma DotFileSplice(s: string)
    requires s == "/dir/.ts"
    ensures s[..5] + ".js" + s[8..] == "/dir/.js"
  {
  }

  lemma DotFileSegment(s: string)
    requires s == "/dir/.js"
    ensures ExtName(s) == []
  {
    assert TrimTrailingSlashes(s) == s;
    assert '/' !in s[5..];
    LastIndexOfAt(s, '/', 4);
    assert Basename(s) == s[5..];
    assert s[5..][0] == '.' && '.' !in s[5..][1..];
  }
}
