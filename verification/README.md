# gulp-import-tasks, modelled in Dafny

`gulp-import-tasks` registers gulp tasks from the files of a directory
instead of from the gulpfile. The repository has the same pipeline twice:
`importTasks` in `lib/gulp-import-tasks.js` and `loadTasks` in `index.js`.
Each call does four things:

1. It resolves the options. A bare string names the directory. An object is
   shallow-merged over `{dir: 'tasks', extensions: ['.js'], params: []}`.
2. It lists `cwd/dir` and keeps only the regular files whose `path.extname`
   is one of `extensions`.
3. It `require`s each kept file and derives the task name: the file name
   with its extension removed.
4. It adapts the export and calls `gulp.task(name, task)`. In the library
   version, an array export passes through unchanged and a function export
   is bound to `gulp, ...params`.

Without the I/O, the pipeline is a pure fold over the directory listing.
The model is built from these parts:

- `Base`: `Option`, `Result`, and the JavaScript exceptions that can end a
  call.
- `NodePath`: `path.extname` and `path.basename(p, ext)` on a single path
  segment, plus the derived task name.
- `TaskValues`: an export is an array (`TaskList`), a function with an
  argument prefix already bound (`TaskCallable`), or any other value
  (`OtherValue`, e.g. the `{}` of a file that sets no `module.exports`). `Bind` adds to that
  prefix. `Invoke` calls the original function with the prefix followed by
  the call-time arguments.
- `OptionResolution`: `extendDefaultOptions`, which is the same in both files.
- `Discovery`: the pass over the directory that both versions share.
  - `Host` stands for the outside world. It holds the working directory,
    `fs.readdirSync` combined with `fs.statSync`, `require`, and the gulp
    handle.
  - `Outcome` records three things: the modules loaded, the registrations
    made (in order), and the exception that ended the pass, if any.
- `GulpImportTasks`: `parseOptions`, `parseTaskObject` and `importTasks`.
- `IndexLoadTasks`: `loadTasks`, including its inverted array test.

JavaScript values are the type parameter `V`. Function identities are `F`.

## Model

| member | source | states |
|---|---|---|
| `NodePath.LastDot` | lib/gulp-import-tasks.js:105 | Finds the last `.` of a segment, or reports that the segment has none. |
| `NodePath.ExtName` | lib/gulp-import-tasks.js:105 | `path.extname` of a segment is either "" or a proper suffix that starts with `.` and has no other `.`. It is non-empty exactly when a `.` follows the first character and the segment is not `..`. |
| `NodePath.BaseName` | lib/gulp-import-tasks.js:112 | `path.basename(p, suffix)` on the final segment: a non-empty proper suffix is removed, so the result followed by the suffix is the segment. Any other suffix leaves the segment whole. |
| `NodePath.TaskName` | lib/gulp-import-tasks.js:112 | The task name followed by the file's extension is exactly the file name. The name is non-empty whenever there is an extension. |
| `NodePath.TaskNameInjective` | index.js:100 | For files with the same extension, task names are equal exactly when the file names are equal. The directory has no influence. |
| `NodePath.TaskNamesCollideAcrossExtensions` | lib/gulp-import-tasks.js:110-112 | With two recognised extensions, `a.js` and `a.ts` both become task `a`. |
| `TaskValues.Bind` | lib/gulp-import-tasks.js:82 | Binding anything but a function throws a TypeError, because it has no `bind`. Binding a function keeps its target and lengthens its prefix by the new arguments. |
| `TaskValues.Invoke` | lib/gulp-import-tasks.js:82 | Calling a function reaches its target with the bound prefix first and the call-time arguments after it. Calling anything else throws. |
| `TaskValues.BindThenInvoke` | lib/gulp-import-tasks.js:82 | Calling `f` bound to `prefix` with `args` is the same as calling `f` with `prefix + args`. |
| `TaskValues.BindTwice` | lib/gulp-import-tasks.js:82 | Binding `a` and then `b` is the same as binding `a + b` once. |
| `OptionResolution.ExtendDefaultOptions` | lib/gulp-import-tasks.js:44-50 | A key the caller supplies keeps the caller's value. A missing key gets `'tasks'`, `['.js']` or `[]`. |
| `OptionResolution.ExtendDefaultOptionsBounds` | index.js:34-40 | An object with none of the keys gives exactly the defaults. An object with all three keys gets nothing from the defaults. |
| `OptionResolution.ExtendDefaultOptionsIdempotent` | lib/gulp-import-tasks.js:44-50 | Resolving options that are already resolved changes nothing. |
| `Discovery.ImportEntry` | lib/gulp-import-tasks.js:103-117 | A stat failure throws. Otherwise the module is loaded exactly when the entry is a regular file with a recognised extension. There is one registration exactly when such an entry adapts without throwing, under the derived name and with the adapted export. |
| `Discovery.ImportEntries` | lib/gulp-import-tasks.js:102-118 | A pass loads at most one module per entry and registers at most one task per loaded module. |
| `Discovery.ImportDirectory` | lib/gulp-import-tasks.js:97-102 | If the directory cannot be read, the pass throws before loading or registering anything. |
| `Discovery.EligibleEntries` | lib/gulp-import-tasks.js:110 | The filtered listing holds exactly the entries that are regular files with a recognised extension. |
| `Discovery.EligibleEntriesAppend` | lib/gulp-import-tasks.js:102-110 | Filtering keeps listing order: the eligible entries of `a + b` are those of `a` followed by those of `b`. |
| `Discovery.ImportEntriesAppend` | lib/gulp-import-tasks.js:102-118 | The pass is sequential: importing `a + b` is importing `a`, then, if that did not throw, importing `b`. |
| `Discovery.AbortKeepsEarlierRegistrations` | index.js:88-111 | After an exception, earlier registrations remain and nothing after the failing entry is loaded or registered. |
| `Discovery.NoErrorIffEveryEntrySucceeds` | lib/gulp-import-tasks.js:102-118 | A pass ends without an exception exactly when every entry is processed without one. |
| `Discovery.ImportEntriesMatchesEligibleEntries` | lib/gulp-import-tasks.js:102-118 | Without exceptions, the pass loads and registers exactly the eligible entries, one each and in listing order, each under its derived name. |
| `Discovery.EverythingComesFromEligibleEntries` | lib/gulp-import-tasks.js:110-116 | Even when a pass throws, every loaded module and every registration comes from an eligible entry, so ineligible entries are never loaded. |
| `Discovery.NothingEligibleNothingImported` | index.js:95-97 | A listing with no eligible entry loads and registers nothing. |
| `Discovery.FirstEligibleEntrySeparates` | index.js:103-107 | If the first entry is eligible, two adaptations that disagree on its export, at most one of them throwing, produce different registrations. |
| `Discovery.PassesAgreeIffNothingLoaded` | index.js:103-107 | Take two adaptations that never agree and never both throw on the same export. Their passes give the same outcome exactly when nothing is loaded. |
| `GulpImportTasks.ParseOptions` | lib/gulp-import-tasks.js:58-66 | No options gives the defaults. A string `s` gives `dir == s` with the default extensions and params. An object is merged over the defaults. |
| `GulpImportTasks.ParseTaskObject` | lib/gulp-import-tasks.js:78-84 | An array is returned identical. A function keeps its target and its bound arguments, followed by `gulp` and then the params in order. Any other export throws a TypeError. |
| `GulpImportTasks.ParseTaskObjectInvoke` | lib/gulp-import-tasks.js:82 | Calling the adapted function with `args` calls the export with `[gulp] + params + args`, with params in order. |
| `GulpImportTasks.ImportTasks` | lib/gulp-import-tasks.js:94-119 | An unreadable directory gives no loads and no registrations. Otherwise the outcome is the shared pass over the listing of `cwd/dir`, using `parseTaskObject`. |
| `GulpImportTasks.ImportTasksAsWrittenDiffers` | lib/gulp-import-tasks.js:95 | For a directory holding `build.js`, the intended importer registers `build` bound to gulp. The written one registers nothing. |
| `GulpImportTasks.ImportTasksRegistersEligibleFiles` | lib/gulp-import-tasks.js:102-118 | With a readable directory, every entry stat-able and every eligible export an array or a function, nothing is thrown. Exactly the eligible files are loaded and registered, in listing order, named by file name minus extension and adapted by `parseTaskObject`. |
| `GulpImportTasks.ImportTasksThrowsIff` | lib/gulp-import-tasks.js:102-113 | The library version throws exactly when `readdirSync` fails, some `statSync` fails, or an eligible file exports neither an array nor a function. |
| `GulpImportTasks.ImportTasksRegistrationShapes` | lib/gulp-import-tasks.js:79-82 | Every registration comes from an eligible entry whose export is an array or a function. An array export is registered identical. A function export is registered as a function that calls the export with `gulp`, the params, then the call-time args. |
| `GulpImportTasks.NoExtensionsImportNothing` | lib/gulp-import-tasks.js:110 | An empty extension list, which the code accepts, imports nothing. |
| `IndexLoadTasks.ResolveOptions` | index.js:76-82 | No options gives the defaults. A string `s` gives `dir == s` with the default extensions and params. |
| `IndexLoadTasks.ResolveOptionsAgreesWithLib` | index.js:70-82 | Both files resolve every input to the same options. |
| `IndexLoadTasks.AdaptInverted` | index.js:103-107 | Any export that is not an array, a function included, is used unchanged. An array export throws a TypeError. |
| `IndexLoadTasks.AdaptInvertedNeverMatchesLib` | index.js:103-107 | For every export, the `index.js` adaptation differs from `parseTaskObject`, and the two never both throw. |
| `IndexLoadTasks.LoadTasks` | index.js:70-112 | An unreadable directory gives no loads and no registrations. Otherwise the outcome is the shared pass, using the inverted adaptation. |
| `IndexLoadTasks.LoadTasksRegistersExportsUnbound` | index.js:99-110 | Everything `loadTasks` registers is an unchanged, non-array export of an eligible entry, named by file name minus extension. |
| `IndexLoadTasks.LoadTasksRegistersEligibleFiles` | index.js:88-111 | If no eligible export is an array and the filesystem does not fail, `gulp.task` is called exactly once per eligible entry, in listing order. |
| `IndexLoadTasks.LoadTasksThrowsIff` | index.js:91-107 | `loadTasks` throws exactly when the directory cannot be read, an entry cannot be stat'ed, or an eligible entry exports an array. |
| `IndexLoadTasks.LoadTasksAgreesWithLibIffNothingLoaded` | index.js:103-107 | `loadTasks` and `importTasks` give the same outcome exactly when `importTasks` loads no module. |

## Left out

- `fs.readdirSync` and `fs.statSync` are an input: `Host.readDir` returns the listing with each entry's stat result, or an error. Listing order is taken as given.
- `require` is the total function `Host.load`. Module syntax errors, load-time exceptions and load-time side effects are not modelled. `Outcome.loaded` only records which modules were loaded.
- `process.cwd()` and the normalisation done by `path.join` are left out. The target directory is the opaque pair `(cwd, dir)`, and a file path is `(directory, entry name)`.
- `NodePath.TaskName` models `path.basename` only on the final segment, with the suffix that `path.extname` returned. Suffixes longer than the segment never arise there.
- The gulp registry is not modelled: duplicate names, and what gulp does with a malformed task. Registration is only an entry in the output sequence, so a second call that gulp would reject is not modelled.
- `Object.assign` corner cases are left out: explicitly `undefined` values that overwrite defaults, extra keys, non-object non-string options, and the shared default arrays being aliased.
- `bind`'s `this` and function identity are left out. Only the bound argument prefix is kept.
- Every export that is neither an array nor a function is one case, `OtherValue`. A non-function object that carries its own `bind` method is not modelled: the library version throws for it as for `{}`.
- Neither version checks that the extension list is non-empty. Nothing forces two files to get different task names either: `a.js` and `a.ts` both become `a` when both extensions are listed. The model follows the code (`NoExtensionsImportNothing`, `TaskNamesCollideAcrossExtensions`).
- The `index.js` doc comment says `params` defaults to `[gulp]`. The code uses `[]`, and the model follows the code.

## Findings

| source | as written | input that shows it | evidently intended | confidence | as-written member | corrected member |
|---|---|---|---|---|---|---|
| lib/gulp-import-tasks.js:95 | `parseOptions(option)` reads an undeclared name, which throws a ReferenceError on every call | any call, e.g. `importTasks()` with a `tasks/build.js` | `parseOptions(options)` | high (not executed) | `GulpImportTasks.ImportTasksAsWritten`, shown by `GulpImportTasks.ImportTasksAsWrittenDiffers` | `GulpImportTasks.ImportTasks`, with `GulpImportTasks.ImportTasksRegistersEligibleFiles` |
| index.js:103-107 | `if (!Array.isArray(task))` registers functions without binding `gulp` and params, and sends arrays to `task.bind`, which arrays lack, so they throw | a task file exporting `['clean', 'build']` throws a TypeError; one exporting a function is registered without `gulp` | the branch of lib/gulp-import-tasks.js:79-82 and its doc comment at lines 69-72 | high (not executed) | `IndexLoadTasks.AdaptInverted`, shown by `IndexLoadTasks.AdaptInvertedNeverMatchesLib` | `GulpImportTasks.ParseTaskObject`, with `GulpImportTasks.ParseTaskObjectInvoke` |
