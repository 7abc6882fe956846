# node-builder, modelled in Dafny

node-builder is a small build-and-serve script.

- Its build step empties an output directory, mirrors a source directory into it, and substitutes one token in the copied files.
  - The synchronous `compileBuilder` does this with `deleteFileSync`, `copyFileSync` and `replaceFileSync`.
  - The promise-based `compiler` does it with `deleteFileAsync`, `copyFileAsync` and a final rewrite of `index.js`.
- Its static server answers each request with the file the URL names.
  - It answers 404 when that file is missing.
  - It compresses html, css and js with gzip or deflate when the client accepts it.

This project models both parts and proves what they do.

**The file tree.**
- The tree is an in-memory map from paths (sequences of names) to entries, `File(content)` or `Dir`. It is held by the class `Fs.FileSystem`.
- Node's `fs` calls become methods of that class:
  - `existsSync`/`access`, `stat`, `readdir`, `unlink`, `rmdir`, `mkdir`, `copyFile`, `readFile` and `writeFile`.
  - Each fails the way the operating system makes it fail: ENOENT, ENOTDIR, EISDIR, EEXIST, ENOTEMPTY.
  - EACCES is raised for a fixed set `locked` of paths whose modification is refused, so that every error path of the scripts is reachable.
- A directory listing is a duplicate-free sequence in no particular order. Every proof holds for every order.

**The builds.**
- The recursive builds are methods over that class, proved against specification predicates:
  - `Pruned`: the tree without a path and all inside it.
  - `Cleared`: the tree without every entry that holds no locked entry.
  - `MirrorOf`: the tree after a copy, entry by entry.
  - `Grows`: what any copy step keeps, whether it succeeds or fails.
- Thrown exceptions end the synchronous operations with a `Fail` outcome.
- A rejected promise is a `Fail` outcome, and the children of a directory are run one after another.
  - `Promise.all` lets every child's work run to its end, so the model goes through every child and keeps the first failure.
  - Siblings touch disjoint parts of the tree, so any order of completion leaves the same tree.

**The server.**
- The request handler is a pure function `StaticServer.Respond`. Its inputs are the settings, the tree, the MIME lookup (a parameter), the request pathname and the `Accept-Encoding` header, if one was sent.
- It returns the status, the content type, the content encoding and what the body carries.
- `path.join` is modelled with its handling of "." and ".." segments. A pathname with ".." segments can therefore name a file outside the static root, and `StaticServer.ResolveEscapesRoot` shows one that does.

**Behaviours of the code worth knowing.** The model follows the code in each case:
- The two deletes treat a missing path differently. `deleteFileSync` does nothing for one (build/index.js:104), while `deleteFileAsync` rejects with ENOENT (build/index-async.js:74-75). So `compiler` stops before copying when the output directory does not exist.
- `fs.copyFile` creates no parent directories.
- The suffix filter of `replaceFileSync` and the compress list of the server are substring tests. For example:
  - under "html|css|js" the extension "ht" qualifies;
  - a file with no extension always qualifies.
- The handler's `catch` branch is taken only when a compressible file is requested without an `Accept-Encoding` header: reading the missing header throws. That branch writes a 500 head and then passes the Error object to `response.end`, which Node does not accept (see "## Left out"). Errors of the file stream after the 200 header are not caught.
- `path.join` never climbs above the file-system root, and the root always exists. A pathname with enough ".." segments therefore names the root, which is served like any other directory.

Files:
- `wrappers.dfy`: `Option`.
- `jsstring.dfy`: `indexOf`, `includes` and the first-occurrence `replace`.
- `nodepath.dfy`: `path.extname` and `path.join` on URL pathnames.
- `tree.dfy`: the tree and its predicates.
- `fs.dfy`: the `fs` calls.
- `rewrite.dfy`: the file filter and rewrite of `replaceFileSync`.
- `mirror.dfy`: what a copy leaves.
- `syncbuild.dfy`: the synchronous build.
- `asyncbuild.dfy`: the promise-based build.
- `server.dfy`: the request handler.

## Model

| member | source | states |
|---|---|---|
| SyncBuild.DeleteSync | build/index.js:102-122 | A missing path is left alone and the call succeeds. Otherwise the delete succeeds exactly when no locked entry lies within the path, and then the tree is `Pruned` (the path and all inside it gone, the rest unchanged). Whatever happens, only unpinned entries within the path are removed, each once, children before their directory. A failure is the permission error of a locked entry within the path. |
| SyncBuild.DeleteChildren | build/index.js:108-117 | The walk over a directory's listing removes only unpinned entries under the listed children. When it succeeds, nothing remains under any listed child. It stops at the first permission error, which names a locked entry inside the directory. |
| SyncBuild.DeleteChild | build/index.js:110-115 | One listed child is unlinked if it is a file and deleted recursively otherwise. The progress invariant of the walk is extended by that child. |
| SyncBuild.ReplaceSync | build/index.js:81-95 | A path that is missing, is a directory, or fails the token/value/suffix filter is left alone. A qualifying file gets its content rewritten with the first occurrence of the token replaced. The call fails (EACCES on the path) exactly when a qualifying file is locked. |
| SyncBuild.CopyOneFile | build/index.js:65-66 | `copyFileSync` then the callback: the destination receives the source content, rewritten by the callback when one is given. The outcome is exactly the write error of the destination, and the tree is unchanged when it fails. |
| SyncBuild.CopySync | build/index.js:51-72 | The tree only grows inside `to`: nothing outside changes, nothing is removed, directories stay directories, locked paths are untouched. On success, `to` mirrors `from` (every entry at its relative place, files with their content rewritten by the callback), and no file was written at a locked path. The copy succeeds exactly when `from` is a directory, `to` exists or its parent directory does, and the copy is not `Refused` (`Refused`: some file's destination is locked or a directory, some directory's missing destination is locked, or some entry's destination would sit in a file). A copy into a fresh `to` with no locked destinations is never `Refused`. |
| SyncBuild.CopyListing | build/index.js:58-71 | Once `to` is in place, listing `from` and copying its children keeps the growth invariant. It succeeds exactly when `from` is a directory and the copy is not `Refused`, and then `to` mirrors `from` with no file written at a locked path. |
| SyncBuild.CopyChildren | build/index.js:58-71 | The `forEach` over the listing keeps the growth invariant. It succeeds exactly when the copy is not `Refused`. On success, the mirror covers every listed child and no file was written at a locked path. |
| SyncBuild.CopyChild | build/index.js:60-70 | One child is copied with the callback if it is a file and recursively otherwise. On success the mirror is extended by that child, and the files written so far all lie at unlocked paths. When the whole copy is not `Refused`, the child's copy succeeds. |
| SyncBuild.CompileBuilder | build/index.js:19-43 | Nothing outside the output directory changes. A locked entry in the old output makes the build fail, and so does a copy of the source into the pruned tree that is `Refused`. A missing `src`, or a `src` that is a file, fails the build (the listing at build/index.js:58 throws). On success, the output mirrors the source over the pruned tree, with each copied file rewritten by the replace settings. When the output holds no locked entry and its parent directory exists, the build succeeds exactly when `src` is a directory and that copy is not `Refused`. |
| Mirror.RefusedFails | build/index.js:58-70 | A copy that mirrors all of `from`, keeps the growth frame and wrote no locked path met no entry it could not write: such a copy is never `Refused`. This is how the copy methods show that a `Refused` copy fails. |
| Mirror.LockedChildRefused | build/index-async.js:46-48 | A child file of `from` whose destination is locked makes the copy `Refused`, whatever the destination holds, even content equal to the source's. |
| Mirror.CanMirrorNotRefused | build/index.js:51-70 | A copy of a directory into a fresh `to` that can be made, with no locked destinations, can place `to` and is never `Refused`. |
| Mirror.MirrorIntoPruned | build/index.js:33-42 | After deleting `dist` and copying `src` into it: `dist` is a directory. For every non-empty relative path `rel`, `dist+rel` exists exactly when `src+rel` does, and holds the source file's (transformed) content or a directory. Everything outside `dist` is as before the build. |
| Rewriting.RewrittenSpec | build/index.js:83-93 | A file that does not qualify, or lacks the token, keeps its content. Otherwise exactly the first occurrence of the token becomes the value, and the text before and after it is unchanged. |
| Rewriting.NoExtensionQualifies | build/index.js:85-89 | With a non-empty token and value, a file without an extension always passes the suffix filter, whatever the list. |
| Rewriting.SubstringFilterAccepts | build/index.js:89 | Under the list "html\|css\|js" the file "page.ht" qualifies, because "ht" is a piece of "html". |
| Rewriting.SubstringFilterRejects | build/index.js:89 | Under the list "html\|css\|js" the file "photo.png" does not qualify. |
| JsString.ReplaceFirstSpec | build/index.js:91 | `replace` with a string pattern: no occurrence leaves the text unchanged, otherwise the first occurrence (the one `IndexOf` finds) is replaced and nothing else. |
| JsString.ReplaceSingleOccurrence | build/index.js:91 | When the token occurs at exactly one place in the text, `replace` puts the value at that place and keeps the text before and after it. |
| JsString.Includes | build/index.js:89 | `includes` holds exactly when the pattern occurs at some position of the text. |
| NodePath.Extname | build/index.js:85 | `path.extname` of a name is empty exactly when the name has no dot, its only dot is the leading one (".env"), or it is "..". Otherwise it is the proper suffix of the name that starts at its last dot ("a." gives "."). |
| NodePath.ExtnameOf | build/index.js:85-86 | For "base.ext" with a non-empty base and a dot-free, non-empty ext, the extension is ".ext", and the extension without its dot is "ext". |
| NodePath.SegmentsOfUrlPath | build/index.js:159 | Splitting the URL pathname of a path of segments gives back that path. |
| NodePath.JoinNames | build/index.js:159 | Joining names that are neither "." nor ".." appends them. |
| NodePath.JoinStaysWithin | build/index.js:159 | A join without ".." segments stays within its base. |
| Fs.FileSystem.Access | build/index.js:104 | `existsSync` holds exactly when the path is an entry. |
| Fs.FileSystem.Stat | build/index.js:106 | `statSync` gives the kind of an entry and ENOENT for a missing path. |
| Fs.FileSystem.Readdir | build/index.js:108 | `readdirSync` lists each child name of a directory once and nothing else. A missing path gives ENOENT, and a file gives ENOTDIR. |
| Fs.FileSystem.Unlink | build/index.js:114 | `unlinkSync` removes exactly a file. A missing path gives ENOENT, a directory EISDIR, and a locked file EACCES. Nothing changes on failure. |
| Fs.FileSystem.Rmdir | build/index.js:117 | `rmdirSync` removes exactly an empty directory. The errors are ENOENT, ENOTDIR, ENOTEMPTY and EACCES, in that order. |
| Fs.FileSystem.Mkdir | build/index.js:55 | `mkdirSync` adds a directory inside an existing directory. An existing path gives EEXIST. A missing or non-directory parent gives ENOENT or ENOTDIR. A locked path gives EACCES. |
| Fs.FileSystem.CopyFile | build/index.js:65 | `copyFileSync` puts the source file's content at the destination. The errors are ENOENT or EISDIR on the source, then the destination's write error. |
| Fs.FileSystem.ReadFile | build/index.js:90 | `readFileSync` gives a file's content, ENOENT for a missing path and EISDIR for a directory. |
| Fs.FileSystem.Write | build/index.js:92 | `writeFileSync` creates or overwrites exactly that file. Its errors are those of placing a file there, a directory in the way (EISDIR), or a locked path. |
| AsyncBuild.DeleteAsync | build/index-async.js:72-114 | A missing path is an error (ENOENT) and changes nothing. Otherwise the tree ends `Cleared`: every entry within the path that holds no locked entry is removed, even when siblings fail. The promise resolves exactly when nothing within the path is locked, and otherwise rejects with the permission error of a locked entry within it. |
| AsyncBuild.DeleteAllChildren | build/index-async.js:84-109 | The `Promise.all` over the listing processes every child. Afterwards exactly the unpinned entries under the children are gone, and it fails exactly when some entry under a child is locked. |
| AsyncBuild.DeleteOneChild | build/index-async.js:87-101 | One child's promise unlinks a file or deletes a directory recursively. It clears exactly that child's unpinned entries, and rejects exactly when the child holds a locked entry. |
| AsyncBuild.CopyAsync | build/index-async.js:21-66 | A missing `from` is an error (ENOENT) and changes nothing. A file is copied with exactly `copyFile`'s outcome. For a directory, the tree only grows inside `to`; on success `to` mirrors `from` and no file was written at a locked path. A directory copy succeeds exactly when `to` exists or its parent directory does and the copy is not `Refused`. When `to` is a directory or can be made, every child file whose destination is fresh and unlocked is copied even if siblings fail. |
| AsyncBuild.CopyDirAsync | build/index-async.js:31-61 | The directory branch: `to` is made if missing and every child copied. The tree only grows inside `to`. It succeeds exactly when `to` exists or can be made and the copy is not `Refused`, and then `to` mirrors `from` with no file written at a locked path. Every child file with a fresh, unlocked destination is copied when `to` is ready. |
| AsyncBuild.CopyAllChildren | build/index-async.js:37-59 | The `Promise.all` over the listing goes through every child. It keeps the growth invariant and succeeds exactly when the copy is not `Refused`, so any child that cannot be written fails the whole. On success it gives the full mirror with no locked path written. It copies every child file with a fresh, unlocked destination whatever its siblings do. |
| AsyncBuild.CopyOneChild | build/index-async.js:40-55 | One child's promise changes only what lies within its destination. On success it extends the mirror, with the files written so far all at unlocked paths. When the whole copy is not `Refused`, the child's promise resolves. It copies a file child whenever its destination is fresh and unlocked. |
| AsyncBuild.RewriteMain | build/index-async.js:137-158 | `index.js` gets its first token occurrence replaced. A missing file, a directory or a refused write is the error and changes nothing. |
| AsyncBuild.Compiler | build/index-async.js:124-167 | Nothing outside `dist` changes. A missing `dist` makes the build fail with ENOENT and change nothing. A locked entry in `dist` stops the build after the deletion has cleared all it could, and a `Refused` copy of `src` into the pruned tree fails it. On success the tree after the copy mirrors `src` over the pruned tree, and the final tree is that copy with `index.js` rewritten. When `dist` exists and holds no locked entry, `src` is a directory and `src/index.js` a file, the build succeeds exactly when the copy is not `Refused`. |
| AsyncBuild.CopyThenRewrite | build/index-async.js:134-163 | The stages after a successful deletion. Nothing outside `dist` changes. A `Refused` copy fails. On success `src/index.js` was a file, the tree after the copy mirrors `src` into the emptied `dist`, and the final tree is that copy with `index.js` rewritten. When `src` is a directory, `src/index.js` a file and the parent of `dist` a directory, it succeeds exactly when the copy is not `Refused`. |
| AsyncBuild.CompiledOutput | build/index-async.js:130-158 | After a successful `compiler`, every entry under `dist` equals the one at the same relative place under `src`, and no other entry exists there. The exception is `index.js`, which holds the source content with its first token replaced. Nothing outside `dist` differs. |
| StaticServer.Respond | build/index.js:156-194 | The status is 200, 404 or 500. It is 404 exactly when the resolved file does not exist, where the file-system root always exists. |
| StaticServer.ResolveUrl | build/index.js:158-159 | The URL pathname of a path of plain names resolves to that path under the root. A pathname ending in '/' resolves to the index page under the root. |
| StaticServer.ResolveStaysInRoot | build/index.js:159 | A pathname without ".." segments (and an index page without them) names a file inside the root. |
| StaticServer.ResolveEscapesRoot | build/index.js:159 | "/../name" names a sibling of the root, a file outside it. |
| StaticServer.RootRequest | build/index.js:158-181 | Under the defaults with a root one level deep, "/.." names the file-system root. With "gzip" the response is a gzip-encoded 200 streaming the root, and without a header it is a 500: an empty extension counts as compressible. |
| StaticServer.NotFound | build/index.js:187-191 | A missing file (never the root) gets a plain-text, unencoded 404 whose message contains the requested pathname. |
| StaticServer.ServesExistingFile | build/index.js:162-186 | An existing file, or the root, gets 200 exactly unless it is compressible and no `Accept-Encoding` header was sent. The 200 streams the file with its MIME type, or text/plain when the type is unknown. The other case is the `catch` branch, given as a plain-text 500 with the `CaughtError` marker. |
| StaticServer.EncodingAccepted | build/index.js:168-181 | A response is encoded only for a compressible file, and only with an encoding the client's header names. gzip wins over deflate. A compressible file is encoded whenever the header names either. |
| StaticServer.HeaderIgnored | build/index.js:170-172 | For a file that is not compressible, the response does not depend on the header. |
| StaticServer.ServedGzip | build/index.js:168-181 | An existing, compressible file asked for with a header that names gzip is answered 200 with its MIME type and a gzip-encoded stream of the file. |
| StaticServer.ExtensionlessFails | build/index.js:168-186 | With gzip on, a file without an extension counts as compressible, so requesting it without an `Accept-Encoding` header gets a 500. |
| StaticServer.IndexPageScenario | build/index.js:141-181 | Under the defaults, "/" with "gzip, deflate, br" streams the root's `index.html` gzip-compressed. |
| StaticServer.IndexPageWithoutHeader | build/index.js:141-186 | Under the defaults, "/" without an `Accept-Encoding` header gets a plain-text 500. |
| StaticServer.ScriptScenario | build/index.js:141-181 | Under the defaults, "/app.js" with "gzip" is streamed gzip-compressed. |
| StaticServer.ImageScenario | build/index.js:141-181 | Under the defaults, "/photo.png" with "gzip" is streamed unencoded. |

## Left out

- Real I/O:
  - file bytes are strings;
  - read streams, `pipe` and zlib compression are not modelled; a response records only which file it streams and with which encoding;
  - the MIME table of `mime-types` is a function parameter.
- `url.parse` is not modelled: the handler takes the pathname as given, with no percent-decoding and no query handling.
- A directory that exists at the resolved path, the file-system root included, is answered with 200 and a stream of it. The stream error that follows in Node is not modelled.
- StaticServer.Respond: the 500 with the `CaughtError` body marks that the handler took its `catch` branch (build/index.js:184-186). There `response.end(err)` gets an Error object, and Node's `end` throws on anything but a string or a buffer. That throw escapes the request listener: no 500 body reaches the client and the process ends. The model does not capture this; its 500 records only which branch was taken.
- Fs.FileSystem.Access: the file-system root is not an entry of the tree, so `existsSync("/")` is false in the build operations. SyncBuild.DeleteSync and AsyncBuild.DeleteAsync on the root are therefore a no-op and an ENOENT, where Node would start deleting the whole file system. The server treats the root as existing (`StaticServer.Found`).
- `server.listen`, `openDefaultBrowser` (`child_process`), all console output, loading `.env` files with `dotenv`, and choosing the mode from `process.argv` are left out. These are external side effects and configuration.
- The top-level `compiler({...})` call is not modelled.
  - Its regular expression `/APP_BASE_URL/` (no flags, one replacement) is a literal token.
  - Its replacement value from the environment is a string parameter; an unset variable would be the string "undefined".
  - `$` patterns in the replacement of `String.prototype.replace` are not interpreted.
- The `__dirname`-relative defaults of `compileBuilder` and `staticServer` become parameters. The server's other defaults are `StaticServer.Defaults`.
- Concurrency:
  - the promise-based build runs the children of a directory one after another;
  - interleavings are not modelled;
  - the rejection of `Promise.all` is the first failure met in listing order.
- After a rejection, `deleteFileAsync` and `copyFileAsync` carry on in the source. For example, they call `stats.isFile()` on an undefined `stats`, which throws and ends the process. The model stops at the rejection.
- The `throw`s inside the callbacks of `compiler` end the process in Node. They are modelled as a `Fail` outcome.
- SyncBuild.CopySync, AsyncBuild.CopyAsync, SyncBuild.CompileBuilder and AsyncBuild.Compiler require source and destination to be apart, which rules out three kinds of input. The model does not cover them:
  - a destination inside the source: the source's recursion copies its own output and does not terminate;
  - a source inside the destination, such as a directory copied into its parent: the source terminates, but the model's frame (nothing outside `to` changes) and mirror reasoning rely on the two trees being disjoint;
  - for the two builds, `src` inside `dist`: the source deletes `src` together with `dist` and then fails reading `src` (ENOENT).
- SyncBuild.DeleteSync: on failure the contract bounds the removed entries rather than naming them. Which entries go depends on the listing order, and every such removal is unpinned, inside the path and logged children first.
- SyncBuild.CopySync: after a failure the contract states only the growth invariant. Which children were copied depends on the listing order.
- AsyncBuild.CopyAsync: after a failure, besides the growth invariant, it states only that every child file with a fresh, unlocked destination is copied. Nested directories are covered by the recursive calls' own contracts.
- AsyncBuild.Compiler: after a failed copy the contract states only that nothing outside `dist` changed.
- AsyncBuild.CopyThenRewrite: likewise, after a failed copy or rewrite the contract states only that nothing outside `dist` changed.
- Symbolic links, file modes, timestamps and binary content are not modelled. Permission errors come only from the `locked` set.
