# A verified model of the gogulp4 build script

The repository is one Gulp build script (`Gulpfile.js`) for a Go web
application. It compiles stylesheets and scripts, minifies views, revisions
built assets for cache busting, rebuilds and restarts the Go server when
sources change, and triggers livereload. Almost all of it wires third-party
plugins together. This project models the few rules the script itself
defines and proves what they promise:

- **The revision-suffix rule** (`revisions.dfy`, module `Revisions`). The
  regular expression `-[a-f0-9]{8}\.(css|js)$` decides which files under
  `public/` already carry a content digest. `assets:revisions:clean`
  deletes exactly those files. `assets:revisions` hashes exactly the others
  and renames `name.ext` to `name-<digest>.ext`. The two selections
  partition the listing and keep its order. Renaming and un-renaming are
  inverse to each other. A second build deletes exactly the first build's
  renamed copies and hashes the same originals again.
- **The declared task table** (`tasks.dfy`, module `Tasks`). The
  `gulp.task(name, deps, fn)` calls form a constant map from task name to
  dependency list. Only `assets:views` changes with the `production` flag.
  For both values of the flag, every dependency is a declared task, one
  order runs every task after its dependencies, and so no task depends on
  itself. The watch bindings are kept as a data table whose targets are
  all declared tasks.
- **Diagnostic lines** (`lines.dfy`, `diagnostics.dfy`, modules `Lines` and
  `Diagnostics`). JavaScript's `split('\n')` is modelled as `Split`, and
  it is proved inverse to `join('\n')` in both directions. Dropping empty
  lines keeps every character except the newlines, in order. The plugin
  error handler notifies with the message's first line. `server:build`
  logs each non-empty line of the compiler's error stream behind a prefix.
  It raises one notification exactly when that stream is not empty.
- **The single server handle** (`server.dfy`, module `Server`). The
  module-level `server` variable is a field of a `Supervisor` object.
  `Spawn` kills the current handle, if there is one, before overwriting
  it. A ghost history of every handle ever stored shows that no handle
  except the current one is left un-killed. Each child's one-shot reload
  of `/` fires on its first stdout chunk and never again. Every stdout
  chunk then logs its own non-empty lines, so a line that arrives split
  across two chunks is logged as two lines, as the script does. Stderr
  chunks are written through unchanged.

`seqs.dfy` (module `Seqs`) holds the sequence filter that the revision
selections and the empty-line filter share, and the interleaving relation
that states "split into two, order kept". `events.dfy` (module `Events`)
holds the one event stream that both the diagnostics and the server
supervisor emit into: `Log`, `Notify`, `Reload` and `Write`, in the order
the script emits them.

Three behaviours of the script are easy to misread:

- A non-empty compiler error stream does not stop `server:spawn`.
  `server:build` reports the errors and returns normally, and nothing in
  the script prevents the spawn.
- Revisioning twice is idempotent only if the hash is deterministic, and
  the hash belongs to the library. The model proves only that the second
  build selects the same files, in whatever order the output tree is
  listed.
- The reload fires on the first stdout chunk of every spawned child,
  because each child gets its own `once` listener. This includes an old,
  killed child whose stream is still open. It does not fire only for the
  current one.

## Model

| member | source | states |
|---|---|---|
| `Seqs.Filter` | Gulpfile.js:237-240 | The result holds exactly the elements of the input that satisfy the predicate, and no more of them than the input. |
| `Seqs.FilterComplementInterleaves` | Gulpfile.js:175-193 | Filtering by a predicate and by its negation splits a sequence into an interleaving of the two results, so each result keeps the input's order. |
| `Seqs.FilterSeparatesInterleaving` | Gulpfile.js:175-193 | However a listing interleaves two sequences, filtering by a predicate true on all of the first and none of the second returns the first, and filtering by its negation returns the second. |
| `Seqs.InterleavingMultiset` | Gulpfile.js:175-193 | The two sides of an interleaving hold every element of the whole exactly as often as the whole does. |
| `Lines.Split` | Gulpfile.js:237-238 | `split('\n')` yields at least one segment, and no segment contains a newline. The first segment is a prefix of the text that ends at the text's end or at a newline. |
| `Lines.JoinSplit` | Gulpfile.js:237-238 | Joining the segments with newlines gives the original text back. |
| `Lines.SplitJoin` | Gulpfile.js:237-238 | Splitting joined newline-free segments gives the same segments back, so the segments are the only such decomposition. |
| `Lines.NonEmptyLines` | Gulpfile.js:237-240 | A line is kept if and only if it is a segment of the text and is not empty. Kept lines contain no newline. |
| `Lines.NonEmptyLinesOfJoin` | Gulpfile.js:237-240 | Take a text written as lines separated by newlines. Its kept lines are exactly the non-empty ones among those lines, in the same order. |
| `Lines.NonEmptyLinesKeepText` | Gulpfile.js:270-273 | Read one after another, the kept lines are the text with its newlines removed, and none of them is empty. |
| `Lines.FirstLine` | Gulpfile.js:77 | `message.split('\n')[0]` is the prefix of the message up to its first newline, or the whole message when it has none. |
| `Revisions.IsAsset` | Gulpfile.js:176 | The glob `public/**/*.{css,js}` lists a path when it ends in `.css` or `.js`. There is no contract; the predicate is the definition both passes start from. |
| `Revisions.IsRevisioned` | Gulpfile.js:177 | The test of `/-[a-f0-9]{8}\.(css|js)$/`: the path is an asset and, right before its extension, has a hyphen and eight characters of `[a-f0-9]`. There is no contract; `IsRevisionedIffPatternFound` proves it equal to the regular expression's search. |
| `Revisions.IsRevisionedIffPatternFound` | Gulpfile.js:177 | Checking the path's tail is true exactly when the unanchored regular expression finds a match that ends at the end of the path. |
| `Revisions.RevisionedHasMatch` | Gulpfile.js:177 | A path that passes the tail check has a match of the regular expression that starts at its hyphen. |
| `Revisions.MatchIsRevisioned` | Gulpfile.js:177 | Wherever a match of the regular expression starts, the path passes the tail check. |
| `Revisions.RevisionSuffixAcceptsCss` | Gulpfile.js:177 | A name with a hyphen, eight lower-case hex characters and `.css` is accepted. |
| `Revisions.RevisionSuffixAcceptsJs` | Gulpfile.js:177 | A name with a hyphen, eight lower-case hex characters and `.js` is accepted. |
| `Revisions.RevisionSuffixRejects` | Gulpfile.js:188 | Upper-case hex, a seven-character digest and a dot in place of the hyphen are all rejected. |
| `Revisions.CleanSelection` | Gulpfile.js:175-179 | The clean pass deletes a listed path if and only if it matches the revision pattern. |
| `Revisions.RevisionSelection` | Gulpfile.js:184-188 | The revision pass hashes a listed path if and only if it does not match the revision pattern. |
| `Revisions.SelectionsPartition` | Gulpfile.js:175-188 | The two selections interleave to the listing, so each keeps its order. Together they hold every path as often as it is listed, and no path is in both. |
| `Revisions.RevisionedName` | Gulpfile.js:189 | The renamed asset is nine characters longer and matches the revision pattern. |
| `Revisions.RenameRoundTrip` | Gulpfile.js:189 | Taking the hyphen and digest out of a renamed asset gives back the original path and the digest. |
| `Revisions.RevisionedNameOfOriginal` | Gulpfile.js:189 | Every name that matches the pattern is the rename of its own original path by its own digest. |
| `Revisions.RevisionedNames` | Gulpfile.js:189-190 | The pass writes one output per hashed file, in order. Each output matches the pattern and un-renames to the file it came from. |
| `Revisions.Manifest` | Gulpfile.js:191-192 | The manifest's keys are exactly the hashed paths. Each value matches the pattern and un-renames to its key. |
| `Revisions.ManifestRecordsOutputs` | Gulpfile.js:189-191 | Each hashed file's manifest entry is exactly the output the revision pass wrote for it, and that name carries the file's own digest. |
| `Revisions.SecondBuildSelections` | Gulpfile.js:175-193 | After one revision pass, the output tree holds the hashed originals and their renamed copies in any interleaved listing order. The next clean pass then deletes exactly the renamed copies, and the next revision pass selects exactly the same originals, both in first-pass order. |
| `Tasks.Declarations` | Gulpfile.js:91-332 | The `gulp.task` table. Every dependency it names is a declared task, and `assets:views` has dependencies exactly when `production` is set. |
| `Tasks.RevisionDependencies` | Gulpfile.js:151-154 | `assets:revisions` always depends on `assets:revisions:clean`. `assets:views` depends on both in production and on nothing otherwise. |
| `Tasks.DependencyComesFirst` | Gulpfile.js:184-186 | In any dependency order, a declared dependency comes strictly before the task that names it. |
| `Tasks.ChainDescends` | Gulpfile.js:91-332 | Along a chain of dependencies, positions in a dependency order strictly decrease. |
| `Tasks.OrderedGraphIsSound` | Gulpfile.js:91-332 | A table that has a dependency order has no cycle, and every dependency it names is declared. |
| `Tasks.RunOrderDistinct` | Gulpfile.js:91-332 | The fixed run order lists no task twice. |
| `Tasks.RunOrderCoversDeclarations` | Gulpfile.js:91-332 | The fixed run order lists exactly the declared tasks, for both values of `production`. |
| `Tasks.RunOrderAfterDependencies` | Gulpfile.js:151-332 | In the fixed run order, every dependency of a task comes before that task, for both values of `production`. |
| `Tasks.RunOrderIsDependencyOrder` | Gulpfile.js:91-332 | The fixed run order is a dependency order of the declared table for both values of `production`. |
| `Tasks.DeclarationsAreSound` | Gulpfile.js:91-332 | For both values of `production`, every dependency name is a declared task and the table has no cycle. |
| `Tasks.ProductionRunsRevisionsBeforeViews` | Gulpfile.js:151-154 | In production, every dependency order cleans, then revisions, then minifies views, all before `build`. |
| `Tasks.GoSourcesRebuildThenRespawn` | Gulpfile.js:285-299 | A Go source change runs `server:build` and then `server:spawn`, one after the other. No other watch binding runs its targets in series. |
| `Tasks.StartedTasksDeclared` | Gulpfile.js:208-326 | Every task that a watch binding (`WatchBindings`) or the `watch` task's `gulp.start` (`WatchStarts`) starts is a declared task, for both values of `production`. |
| `Diagnostics.ReportPluginError` | Gulpfile.js:71-78 | The handler logs one line and then raises one notification. The log line is `Error (<plugin>): ` and the whole message. The notification has the title `Error (<plugin>)` and carries the message up to its first newline. |
| `Diagnostics.ReportBuildErrors` | Gulpfile.js:234-251 | An empty error stream emits nothing. Otherwise each non-empty line of the stream is logged in order behind the prefix `Error (go install): `, and then one notification carries those lines. So a notification is raised if and only if the stream is not empty, and always after the log lines. |
| `Server.ChildProcess.constructor` | Gulpfile.js:261 | A freshly spawned child is not killed, has no listener registered and has produced no output. |
| `Server.ChildProcess.Kill` | Gulpfile.js:258 | `kill()` marks the handle killed and leaves its listener and output count alone. |
| `Server.Supervisor.constructor` | Gulpfile.js:59 | The `server` variable starts as `null`. Nothing has been spawned or emitted. |
| `Server.Supervisor.ValidHasAtMostOneLive` | Gulpfile.js:257-261 | Under the object invariant, no handle that was ever current is un-killed except the current one. |
| `Server.Supervisor.Spawn` | Gulpfile.js:256-266 | The previous handle, if any, is killed. `server` then holds a fresh, un-killed child with its reload armed and is appended to the history. No other handle is un-killed, and nothing is emitted. Every earlier handle keeps its reload state and data count, so a spent listener stays spent after the handle is superseded. |
| `Server.Supervisor.ReloadOnFirstData` | Gulpfile.js:264-266 | A child's first stdout chunk emits `Reload("/")` and disarms the listener. Later chunks emit nothing. |
| `Server.Supervisor.LogLines` | Gulpfile.js:271-273 | Walking the lines appends one `Log` for each non-empty line, in order. `server` and the spawn history are unchanged. |
| `Server.Supervisor.LogChunk` | Gulpfile.js:269-274 | A stdout chunk appends one `Log` per non-empty line, in order, and nothing else. |
| `Server.Supervisor.OnStdout` | Gulpfile.js:264-274 | Output gains `Reload("/")` only when this is the child's first chunk, followed by the chunk's non-empty lines in order. The handle state is otherwise unchanged. |
| `Server.Supervisor.OnStderr` | Gulpfile.js:277-279 | A stderr chunk is appended to the output unchanged. |

## Left out

- The plugin pipelines are left out: sass, postcss with autoprefixer, mqpacker and pixrem, minify-css, uglify, concat, modernizr, htmlmin and gulp-rev-collector. Each is a foreign transform whose source is not part of this model.
- Content hashing by gulp-rev is left out: the digest is a parameter (`digestOf`). The same goes for writing the renamed files and the manifest to disk. So the model does not claim that revisioning twice yields the same names, which would need the hash to be deterministic.
- `Revisions.RevisionedName`: the model takes the digest as 8 lower-case hex characters, the width the script's pattern expects. The width the installed gulp-rev release really writes lives in the library. A wider digest would not be matched by the clean pass.
- `Revisions.IsAsset`: the glob `public/**/*.{css,js}` is modelled only as "the path ends in `.css` or `.js`". Directory matching and minimatch's dotfile rules are the glob library's.
- Gulp's task runner is left out because it is library code. That covers running a task's dependency closure once, its errors for duplicate, unknown or cyclic tasks, `gulp.start`, and `gulp.watch` glob matching, file events and debouncing. The model keeps the declared table and its watch bindings as data and proves that the table can be run.
- The serialisation of `server:build` and `server:spawn` by gulp-sync is left out, because it is concurrency control inside the library.
- The model does not claim that a compile failure blocks `server:spawn`, because the script does not block it.
- Process and output plumbing are left out; the model records their effects as events instead. This covers `child_process.spawnSync` (its error stream is the parameter `stderr`), the spawning of the binary (a fresh `ChildProcess` object) and the delivery of the kill signal. It also covers livereload `listen`/`reload` (a `Reload` event), node-notifier (a `Notify` event), `util.log` (a `Log` event, without its timestamp and without the red colouring) and `process.stdout.write` (a `Write` event).
- `Diagnostics.ReportBuildErrors`: `build.stderr` is a byte buffer, and the script tests its byte length and decodes it as UTF-8. The model works on the decoded characters. A non-empty buffer decodes to a non-empty string, so the test is the same.
- `Diagnostics.ReportBuildErrors`: when `go` cannot be started at all, `spawnSync` returns no error stream (`stderr` is `null`) and the script's `build.stderr.length` throws. The model always receives a string, so it does not model that crash.
- `Server.Supervisor.LogChunk`: `data.toString()` decodes each stdout buffer on its own. A multi-byte UTF-8 character split between two chunks therefore turns into replacement characters (U+FFFD) in the script's log. The model receives each chunk already decoded and does not capture that corruption.
- `Server.Supervisor.Spawn`: the model always gets a live child. In the script, `child.spawn` of a binary that cannot start still returns a handle, and the handle then emits `'error'`. No `'error'` listener is registered, so Node throws and the watch process ends. The model does not capture that crash.
- The plumber handler's `this.emit('end')` is left out, because it ends the stream inside the stream library.
- yargs argument parsing is left out: `production` is a plain boolean parameter. The `sourcemaps` flag affects only the plugin pipelines.
