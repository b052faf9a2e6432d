# bitburner-watcher: the sync pipeline of `server.ts`, modelled in Dafny

The watcher pushes TypeScript and JavaScript files from a local directory
into the game Bitburner. It watches the directory and reacts to each
`modify` event. For that file it:

1. computes the file's in-game name (`fixFilename`);
2. checks the name's extension against an allow-list;
3. reads the file and picks a transform strategy from marker comments;
4. transforms the file;
5. runs the fixed text rewrites of `fixFileContent` on the output;
6. POSTs the result to the game's API server;
7. on success, writes a `// Ram usage: <n>GB` header back into the source
   file (`updateFileHeader`).

The model covers the logic of that pipeline. Reading and writing files,
the transformers, the HTTP exchange and the event stream are inputs.

| file | module | what it holds |
|---|---|---|
| `wrappers.dfy` | `Wrappers` | `Option`, for the code's `false`/`null`/`undefined` results |
| `text.dfy` | `Text` | JavaScript's `includes`, `indexOf`, `replace` (first occurrence) and `replaceAll` with string patterns, and when a rewrite cannot bring a pattern back |
| `filename.dfy` | `FileName` | `fixFilename`, `ALLOWED` |
| `posixpath.dfy` | `PosixPath` | `path.extname` (POSIX) |
| `content.dfy` | `Content` | `fixFileContent` |
| `header.dfy` | `Header` | the text computation of `updateFileHeader` |
| `sync.dfy` | `Sync` | the strategy choice and the gates of `syncFile` |
| `watcher.dfy` | `Watcher` | `watch`, a class for the options and a loop over the events |

Behaviour of the code that is easy to miss:

- `fixFilename` rewrites the first `.tsx`, then the first `.ts`, wherever
  they occur. It does not rewrite a trailing extension only.
  - `my.tsconfig.js` becomes `my.jsconfig.js`.
  - `x.tsconfig.ts` becomes `x.jsconfig.ts`. That name still has extension
    `.ts`, so the allow-list refuses it and it is never uploaded.
- Different paths can map to one name. `x.ts`, `x.tsx` and `x.js` all
  become `x.js`.
- The empty relative path (the watched directory itself) passes
  `fixFilename` unchanged. Line 120 then rejects it, as for a name with a
  space.
- A `modify` event with no paths is still dispatched. The path passed is
  `undefined` (`None` here).
- A 200 reply with `success` not `true` is silent.
- Some failures reject `syncFile`'s promise and are not logged:
  - the body cannot be read as JSON;
  - `data` is missing;
  - a bundler throws.

  These are outcomes of their own (`ReplyRejected`, `TransformRejected`).
  The debounced wrapper calls `syncFile` from a timer and drops the promise
  it returns, so such a rejection is unhandled. Deno's default for an
  unhandled rejection ends the process, and with it the event loop of
  lines 196-201.
  Two more rejections go unhandled the same way:
  - `updateFileHeader` is called without `await` (line 179) and does not
    await its own `Deno.writeFile` (lines 29-34), so a source file that
    cannot be read again (line 21) or written (for example, read-only)
    rejects unhandled;
  - a `modify` event with no paths passes `undefined`, on which
    `path.relative` (line 117) throws.

  So these failures stop the watcher; every other failure only skips the
  file.
- A dot file keeps its leading `.` through the rename: `dir/.ts` becomes
  `/dir/.js`, which has no extension and is refused.
- The header rewrite replaces from the first `// Ram usage: ` to the end of
  its line. Text before the marker on that line is kept.

## Model

Some functions that model a JavaScript operation are specified by lemmas
rather than by their own `ensures`; their rows name those lemmas:

- `Text.ReplaceFirst` (`replace`): `Text.ReplaceFirstAt`,
  `Text.ReplaceFirstAbsent`, `Text.ReplaceFirstKeepsAbsent`;
- `Text.ReplaceAll` (`replaceAll`): `Text.ReplaceAllAt`,
  `Text.ReplaceAllAbsent`, `Text.ReplaceAllRemoves`,
  `Text.ReplaceAllKeepsAbsent`;
- `Text.Contains` (`includes`): through `Text.IndexOf`, which is `None`
  exactly when the pattern is not contained;
- `Header.ReplaceUsageLine` (the regular-expression `replace` of line 31):
  `Header.ReplaceKeepsOtherLines`, `Header.UpdateLineCount`;
- `Watcher.Dispatched` (the loop body of lines 196-201):
  `Watcher.OnlyModifyDispatches`, `Watcher.DispatchedPerModify`.

| member | source | states |
|---|---|---|
| `Text.IndexOf` | server.ts:40-45 | the result is the leftmost occurrence, and `None` exactly when the pattern does not occur |
| `Text.ReplaceFirstAt` | server.ts:45 | `replace` rewrites exactly the leftmost occurrence of the pattern and keeps the text on both sides |
| `Text.ReplaceFirstAbsent` | server.ts:45 | `replace` leaves a text without the pattern unchanged |
| `Text.ReplaceAllAt` | server.ts:53-57 | when the leftmost occurrence of the pattern starts at `i`, `replaceAll` keeps the text before it, puts the replacement there and resumes only after the occurrence's end, so no later match overlaps it |
| `Text.ReplaceAllAbsent` | server.ts:53-57 | `replaceAll` leaves a text without the pattern unchanged |
| `Text.ReplaceAllRemoves` | server.ts:53-57 | `replaceAll(p, r)` leaves no `p` when `r` cannot form `p` alone or at its seams |
| `Text.ReplaceAllKeepsAbsent` | server.ts:53-57 | `replaceAll` brings no `q` into a text that lacks it when `r` cannot form `q` alone or at its seams |
| `Text.ReplaceFirstKeepsAbsent` | server.ts:59-62 | the same for a single `replace` |
| `FileName.FixFilename` | server.ts:38-46 | the name is rejected exactly when the path contains a space |
| `FileName.FixFilenameRooting` | server.ts:42-45 | a path with a `/` that does not start with one gains exactly one leading `/`, any other keeps its start; apart from that only the extension rewrite applies |
| `FileName.FixFilenameRooted` | server.ts:42-45 | every valid name with a `/` comes out starting with `/` |
| `FileName.RewriteTsEnding` | server.ts:45 | `x.ts` becomes `x.js` when `x` has no `.ts`; all else is unchanged |
| `FileName.RewriteTsxEnding` | server.ts:45 | `x.tsx` becomes `x.js` under the same condition |
| `FileName.RewriteJsEnding` | server.ts:45 | `x.js` is left as it is under the same condition |
| `FileName.FixFilenameEndings` | server.ts:38-46 | `x.ts`, `x.tsx` and `x.js` all map to the rooted `x.js`, so the mapping is not one-to-one |
| `FileName.RewriteIsNotSuffixOnly` | server.ts:45 | the first `.ts` anywhere is rewritten: `my.tsconfig.js` becomes `my.jsconfig.js` |
| `FileName.HelperExample` | server.ts:42-45 | `utils/helper.ts` becomes `/utils/helper.js` |
| `FileName.TsxExample` | server.ts:45 | `a.tsx` becomes `a.js` |
| `PosixPath.ExtName` | server.ts:126 | the extension is empty exactly when the last segment has no `.`, has its only `.` in front, or is `..`; otherwise it is the ending of the last segment from its last `.`, shorter than the segment |
| `PosixPath.ExtNameOfName` | server.ts:126 | a path ending in a stem (not ending in `.` or `/`) followed by a `.` and a text without `.` or `/` has that `.`-led ending as its extension |
| `Content.FixFileContent` | server.ts:48-64 | the output contains no `.tsx";`, `.ts";`, `from "@/`, `document.` or `globalThis.document` |
| `Content.FixImportsComplete` | server.ts:53-55 | the import rewrites remove every import pattern they target |
| `Content.TsxImportsFixed` | server.ts:53 | the `.tsx";` rewrite leaves no `.tsx";` |
| `Content.TsImportsFixed` | server.ts:54 | the `.ts";` rewrite leaves no `.ts";` and brings back no `.tsx";` |
| `Content.AliasImportsFixed` | server.ts:55 | the `from "@/` rewrite leaves no `from "@/` and brings back neither import terminator |
| `Content.DocumentAccessFixed` | server.ts:56 | the `document.` rewrite leaves no `document.` and brings back no import pattern |
| `Content.GlobalDocumentFixed` | server.ts:57 | the `globalThis.document` rewrite leaves none behind and brings back no import pattern and no `document.` |
| `Content.FixDocumentComplete` | server.ts:56-57 | the document rewrites remove `document.` and `globalThis.document` and add no import pattern |
| `Content.EvtPatchKeepsAbsent` | server.ts:59-62 | the `Evt` patch adds none of the rewritten patterns |
| `Content.GlobalRewritesSettle` | server.ts:53-57 | running the five global rewrites on fixed output changes nothing; in particular the `document.` rewrite is idempotent |
| `Content.DocumentRewriteOrder` | server.ts:56-57 | `globalThis.document.x` becomes `globalThis.globalThis['document'].x`, because line 56 runs first |
| `Content.OnlyFirstEvtPatched` | server.ts:59-62 | of two `Evt` re-exports only the first is patched |
| `Header.LineEnd` | server.ts:31 | the line runs to the first line terminator (`\n`, `\r`, U+2028, U+2029) or to the end of the text |
| `Header.UpdatedHeader` | server.ts:18-36 | there is no write exactly when the exact header is present; a write always carries the exact header; a file without a header gets the header and a blank line in front |
| `Header.UpdateSettles` | server.ts:25-26 | a second update with the same figure writes nothing |
| `Header.ReplaceKeepsOtherLines` | server.ts:28-32 | an outdated header is replaced from the first marker to its line end; everything before and after is kept |
| `Header.UpdateLineCount` | server.ts:28-35 | a replaced header keeps the line count; a prepended one adds exactly two line terminators |
| `Sync.SelectStrategy` | server.ts:136-142 | the esbuild marker wins over the bundle marker, which wins over the single-file transform |
| `Sync.Transform` | server.ts:66-82 | the single-file transform never rejects, yields output exactly when swc does, and that output is swc's text; the bundlers give their own results |
| `Sync.AnswerOf` | server.ts:163-186 | each of the five answers as an if-and-only-if: a failed fetch; a non-200 status; 200 with `success` not true (silent, not saved); 200 with an unreadable body or no `data` (rejected); otherwise the header is updated with the reported figure |
| `Sync.SyncFile` | server.ts:116-186 | the gates, in the source's order; an upload happens exactly when all pass, under the canonical name, with an allowed extension and the content-fixed code |
| `Sync.EsBundleDecides` | server.ts:136-142 | with the esbuild marker, neither the single-file transform nor `deno bundle` affects the outcome |
| `Sync.TypeScriptPassesGates` | server.ts:118-129 | `x.ts` and `x.tsx` pass the name and extension gates as the rooted `x.js` |
| `Sync.JsNameAllowed` | server.ts:3 | `x.js` has the allowed extension `.js` whenever `x` is non-empty and ends in neither `.` nor `/` (so not `dir/.js`) |
| `Sync.EmptyPathRejected` | server.ts:117-124 | the empty relative path is turned away as an invalid name |
| `Sync.InnerTsBlocksUpload` | server.ts:45-129 | `x.tsconfig.ts` becomes `x.jsconfig.ts` and is refused by the allow-list |
| `Sync.DotFileRefused` | server.ts:40-129 | `dir/.ts` becomes `/dir/.js`, whose last segment `.js` has no extension, so it is refused |
| `Sync.RefusedWithoutExtension` | server.ts:3-129 | a valid name whose last segment has no extension is refused, since the allow-list has no empty entry |
| `Watcher.OnlyModifyDispatches` | server.ts:196-200 | an event that is not `modify` dispatches nothing; a `modify` event dispatches one call with its last path |
| `Watcher.DispatchedPerModify` | server.ts:196-200 | the calls are one per `modify` event, in order, each with that event's last path |
| `Watcher.WatchOptions.constructor` | server.ts:5-10 | the options record holds the given directory, token, host and port |
| `Watcher.Watch` | server.ts:191-202 | the options' directory becomes the resolved one and nothing else in them changes; the calls are those the events dispatch |

## Left out

- File reads and writes are inputs and outputs of the model, not actions:
  - the reads of lines 21 and 110-114;
  - the write of lines 29-34;
  - the temporary file of lines 96-107;
  - `Deno.remove`;
  - `getOSTempDir`, an environment lookup.
- The write in `updateFileHeader` is not awaited. That timing is not
  modelled.
- The transformers (swc, the `deno bundle` subprocess, esbuild) are foreign
  tools. They appear as their results.
- `fetch`, `JSON.stringify`, the `Content-Length` header and `res.json` are
  network and library calls. Their results are inputs: a response, a
  parsed reply, or none.
- Base64 encoding is left out. The request carries the code before
  encoding.
- The 100 ms `debounce` is timer-based coalescing. The model gives the
  calls made to the debounced function, not the calls that fire after the
  timer.
- `path.relative` and `path.resolve` depend on the working directory
  (`Deno.cwd()`). The relative path and the resolved directory are
  inputs.
- Turning the reported RAM number into text is JavaScript number
  formatting. The figure is an already-rendered string.
- Watcher.Watch: a sync that rejects ends the Deno process (the rejection
  is unhandled, see above), and the model does not capture that. This is a
  `TransformRejected` or `ReplyRejected` outcome, a failed re-read or write
  of the header, or a dispatched `undefined` path. `Watch` dispatches a call for every
  event it is given. So its `calls == Dispatched(...)` describes only the
  events delivered before such a sync fails, and the process exit itself is
  not modelled.
- Log messages are left out, including the "bundle"/"transform" wording of
  line 146.
- `$` replacement patterns of `replace` are not modelled. No replacement
  text in the code contains `$`.
- Strings are sequences of Unicode scalar values. JavaScript uses UTF-16
  code units. The two differ only for characters outside the Basic
  Multilingual Plane, and every pattern here is ASCII.
- `path.extname` is modelled with POSIX separators only. Windows paths are
  not modelled.
- A `modify` event with no paths dispatches `undefined`. In `syncFile`,
  `path.relative` then throws on the non-string and that call's promise
  rejects. The model stops at the dispatched call (`SyncCall` with `None`);
  `Sync.SyncFile` takes a path that is already relative text.
- `syncFile` reads the token, host and port from the same options object
  that `watch` updates. `Sync.SyncFile` receives them as a `Connection`
  value, so the sharing of that object between the two is not modelled.
- `cli.ts`, `bitburner.ts` and `deps.ts` are not part of this model. They
  are command-line and configuration glue and re-exports.
