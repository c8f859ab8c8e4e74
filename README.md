# mini-bundler, modelled in Dafny

mini-bundler is a small JavaScript module bundler for teaching. Starting from
an entry file, it walks the dependency graph breadth first. It finds each
module's dependencies: relative `import` declarations and relative
`require('…')` calls with one string literal. It then has the code compiled to
CommonJS and rewrites the relative `require`s that come from `import`
declarations into requires of the dependency's absolute path, its identifier;
relative `require`s written as such stay relative (finding 1 below). Finally it writes one bundle. The
bundle holds a small loader (`__webpack_require__`, with a cache of installed
modules) and an object that maps each identifier to a function wrapping the
module's code. The command-line front end lays its options over a
configuration file before starting the compiler.

The model has seven modules:

- `Wrappers` (`wrappers.dfy`): `Option` and `Result`.
- `PosixPath` (`posix_path.dfy`): POSIX `path.resolve`, `dirname`, `basename`
  and `extname`, and the bundler's "append `.js` when there is no extension"
  rule. Paths are strings, and an absolute path starts with `/`.
- `JsText` (`js_text.dfy`): the text encodings the bundle relies on. These
  are backslash doubling, the reading of a single-quoted literal,
  `JSON.stringify` and its reading back as a double-quoted literal, literal
  replace-all, and JavaScript's `String.prototype.replace` with its `$`
  patterns.
- `Parser` (`parser.dfy`): `getDependencies` and `transform` of
  `src/parser.js`, over a syntax tree abstracted to the visited nodes in
  source order. Babel's output is an input.
- `Compiler` (`compiler.dfy`): the `Compiler` class of `src/index.js`, with
  `buildModule`, the breadth-first `run`, `emitFiles` and `generateRuntime`.
  The file system is a map from identifier to file.
- `Runtime` (`runtime.dfy`): the loader that `generateRuntime` emits. It is a
  class `Loader` whose cache `installed` the recursive method `Require`
  updates, specified against the function `Load`. Module functions are
  scripts of requires, writes to their own exports object, and throws.
- `Cli` (`cli.dfy`): the action of `bin/mini-bundler.js`, meaning the
  configuration merge and the compiler start.

The default-output branch at bin/mini-bundler.js:54-59 is unreachable with
the default `--filename` (finding 3 below). `Cli.Merge` and `Cli.LoadConfig`
follow the code as written; `Cli.Action` uses the corrected `Cli.Configure`.
Likewise the two defects of `transform` (findings 1 and 2) are modelled as
written in `Parser.TransformAsWritten` and `Compiler.BuiltModuleAsWritten`,
while `Parser.Transform`, and with it the compiler's build and walk, is the
corrected version.

## Model

| member | source | states |
|---|---|---|
| PosixPath.ResolveCanonical | src/parser.js:41 | Every path `path.resolve` returns is canonical: absolute, with no empty, `.` or `..` piece, and no trailing slash. |
| PosixPath.ResolveAgainstDirname | src/parser.js:33-41 | Resolving a relative path against the directory of an absolute file normalises the file's pieces but the last, followed by the relative path's pieces. |
| PosixPath.NormalizeAppend | src/parser.js:41 | Normalising a concatenation of pieces normalises the first half, then the second half on top of the result. |
| PosixPath.ResolveIdempotent | src/index.js:9 | Resolving an already canonical path gives it back unchanged. |
| PosixPath.DefaultExtension | src/parser.js:44-46 | `.js` is appended exactly when `extname` is empty. The result is still canonical and has an extension, except that the root becomes `/.js`. |
| JsText.DoubledReadsBack | src/index.js:101-105 | A text with its backslashes doubled, read as a single-quoted literal, is the original text, exactly when the text holds no quote and no line break. |
| JsText.JsonReadsBack | src/index.js:105 | `JSON.stringify` of any string, read back as a JavaScript string literal, is that string, so `eval` gets the module code unchanged. |
| JsText.ReplaceAbsent | src/parser.js:131-133 | A global replace leaves a text without the pattern unchanged. |
| JsText.ReplaceFirst | src/parser.js:131-133 | A global replace puts exactly the replacement in place of the first occurrence and keeps the text before it. |
| JsText.JsReplacePlain | src/parser.js:132 | JavaScript's `replace` with a `$`-free replacement is the literal replace. |
| JsText.JsReplaceAbsent | src/parser.js:132 | JavaScript's `replace` leaves a text without the pattern unchanged, whatever the replacement. |
| JsText.JsReplaceWhole | src/parser.js:132 | Replacing a whole text reads the replacement's `$` patterns with nothing before or after the match. |
| JsText.SubstituteEscapedDollar | src/parser.js:132 | In a replacement, `$$` stands for one `$`. |
| Parser.GetDependencies | src/parser.js:31-77 | The traversal returns one identifier per relative import or qualifying require, in source order, and one warning per non-relative import, matching `Dependencies` and `Warnings`. |
| Parser.SourceOrder | src/parser.js:31-77 | The dependencies and warnings of two consecutive stretches of code are the concatenation of each stretch's. Order and duplicates are kept. |
| Parser.DependencyMembers | src/parser.js:36-72 | An identifier is a dependency if and only if some relative import, or some `require` call with exactly one string-literal relative argument, resolves to it. |
| Parser.DependenciesCanonical | src/parser.js:41-46 | Every dependency is a canonical absolute path with an extension. The one exception is `/.js`. |
| Parser.NonRelativeSkipped | src/parser.js:40-63 | A non-relative import is skipped and warned about. A call never warns. Every path that is kept is relative. |
| Parser.WarningsMembers | src/parser.js:50 | A text is a warning if and only if it is the warning of some non-relative import declaration. |
| Parser.MapSet | src/parser.js:113 | `Map.set` results in the old keys plus the new one, and each entry is either an old one or the new pair. |
| Parser.MapSetPlaces | src/parser.js:113 | `Map.set` of a present key replaces its first entry in place by the new pair and leaves every other entry where it was; a new key is appended last. |
| Parser.MappingEntries | src/parser.js:101-116 | The filled map has pairwise distinct keys, exactly the collected relative paths as keys, and each key mapped to its resolved identifier. |
| Parser.MappingMatchesDependencies | src/parser.js:101-116 | In the corrected transform, the map's values are exactly the module's dependencies. |
| Parser.Transform | src/parser.js:86-140 | The corrected `transform` (findings 1 and 2). A compiler error is wrapped as "Failed to transform code: …". Otherwise the code is rewritten entry by entry with literal replacement, using the map of every relative import and require. |
| Parser.TransformAsWritten | src/parser.js:86-140 | `transform` as written: the map is filled from import declarations only and the call text goes through `String.prototype.replace`. Its properties are stated by `Parser.AsWrittenMappingWithin`, `Parser.AsWrittenKeepsRequires`, `Parser.AsWrittenAgrees`, `Parser.RequireLeftRelative` and `Parser.DollarIdentifierMangled`. |
| Parser.AsWrittenMappingWithin | src/parser.js:105-116 | As written, every map value is a dependency. This is an inclusion, not an equality. |
| Parser.AsWrittenKeepsRequires | src/parser.js:105-134 | As written, a module without import declarations comes back from the compiler's output untouched. |
| Parser.AsWrittenAgrees | src/parser.js:101-134 | When a module's dependencies all come from imports and hold no `$`, the code as written and the corrected code agree. |
| Parser.RewriteUntouched | src/parser.js:119-134 | Code in which no mapped call pattern occurs is not changed. |
| Parser.CorrectedCallRewritten | src/parser.js:121-132 | Either quoting of `require(rel)` becomes a single-quoted require of the identifier, and its literal reads back as exactly the identifier. |
| Parser.RequireLeftRelative | src/parser.js:101-116 | A relative CommonJS require is a dependency under its absolute identifier, yet the code as written still requires the relative path. The corrected rewrite names the identifier. |
| Parser.JsRewriteHalvesDollars | src/parser.js:132 | As written, a `$$` in the identifier comes out of the rewrite as `$`. |
| Parser.DollarIdentifierMangled | src/parser.js:132 | For `/w/$$/a.js` importing `./m`, the code as written requires `/w/$/m.js`. The corrected code requires `/w/$$/m.js`, the dependency. |
| Compiler.BuiltModule | src/index.js:63-89 | `buildModule` with the corrected transform: the missing-file, parse and transform errors wrapped with the module's name, or the module record. Its properties are stated by `Compiler.BuiltModuleFacts`. |
| Compiler.BuiltModuleAsWritten | src/index.js:63-89 | `buildModule` with `transform` as written, related to the corrected build by `Compiler.BuiltModuleAgrees`. |
| Compiler.BuiltModuleAgrees | src/index.js:63-89 | The as-written and corrected builds fail exactly alike with the same message and give the same identifier and dependencies; for a module whose dependencies all come from import declarations and hold no `$`, they are identical. |
| Compiler.BuildKeepsRelativeRequire | src/index.js:79 | Built as written, a module whose one call is `require('./n')` keeps the relative text, which is not its dependency's identifier; the corrected build requires the identifier. |
| Compiler.BuiltModuleFacts | src/index.js:63-89 | Every failure starts with "Failed to build module <file>: ". A missing file gives "Module not found: <file>", an unreadable one "Failed to parse <file>: <reason>" (src/parser.js:21), and a failed compilation "Failed to transform code: <error>" (src/parser.js:138). A built module keeps its identifier, and its dependencies are those `getDependencies` finds, all canonical. |
| Compiler.Compiler.BuildModule | src/index.js:63-89 | The method returns what reading, parsing, collecting and transforming give, or the wrapped error, with the corrected transform: its result is `Compiler.BuiltModule`. |
| Compiler.Compiler.constructor | src/index.js:6-12 | The entry is resolved against the working directory, the output is taken from the configuration, and the module list starts empty. |
| Compiler.Compiler.BuildGraph | src/index.js:23-45 | The appended modules are a breadth-first prefix of the walk, each built from its file. The loop fails exactly when `Walked` fails, with its error; otherwise the appended modules are exactly those of `Walked`. |
| Compiler.Compiler.Run | src/index.js:17-56 | The result is the walk's error, or what `emitFiles` produces from the modules listed before plus those of `Walked`; on a fresh compiler the result is `Ran`. |
| Compiler.Walked | src/index.js:23-45 | The walk as a function: from the processed modules, build the next discovered identifier and go on, stopping at the first build error or when nothing discovered is left. Its properties are stated by `Compiler.WalkedDone` and `Compiler.WalkedFails`. |
| Compiler.Ran | src/index.js:17-56 | What `new Compiler(config).run()` gives: the walk from the resolved entry, then the emission. |
| Compiler.DiscoveryBound | src/index.js:24 | Every discovered identifier is absolute and in the universe: the entry and every dependency of a file that builds. The walk is bounded by the universe's size. |
| Compiler.WalkedStep | src/index.js:29-34 | A module that builds is appended and the walk goes on from there. |
| Compiler.WalkedStop | src/index.js:33 | The walk stops at the first identifier that fails to build, with that error. |
| Compiler.WalkedDone | src/index.js:29-45 | A walk that finishes is complete (every discovered identifier processed, in breadth-first order) and each of its modules is built from its file. |
| Compiler.WalkedFails | src/index.js:29-45 | A walk that fails does so after a breadth-first prefix of processed modules extending the given ones, and the identifier discovered next, the first one dequeued whose `buildModule` throws, gives exactly the walk's error. |
| Compiler.Compiler.EmitFiles | src/index.js:94-125 | The output path is `path.resolve(cwd, output.path, output.filename)`, or its argument error. The text is the runtime applied to the module map. |
| Compiler.CompleteDistinct | src/index.js:23-45 | A finished walk lists each identifier once and starts at the entry. Its identifiers are exactly the entry and every dependency. |
| Compiler.CompleteClosed | src/index.js:37-44 | Every dependency of a processed module is itself processed. |
| Compiler.Parent | src/index.js:37-41 | Every module but the first is a dependency of an earlier module. |
| Compiler.ReachedFromEntry | src/index.js:29-45 | Every processed module is reached from the entry along a chain of dependencies. |
| Compiler.DedupPrefix | src/index.js:39-41 | The queue only grows at its end: what was discovered earlier keeps its place. |
| Compiler.WalkBound | src/index.js:24 | The walk builds no more modules than there are distinct identifiers discovered, and no more than the universe holds. |
| Compiler.OutputPath | src/index.js:97 | `path.resolve(process.cwd(), output.path, output.filename)` with Node's argument checks; its properties are stated by `Compiler.OutputPathFacts`. |
| Compiler.GenerateRuntime | src/index.js:131-174 | The loader text followed by the call that requires the entry's key; the key it requires heads the module map (`Compiler.ModuleMapHead`), and the loader it emits is modelled by `Runtime.Loader` and `Runtime.Load`. |
| Compiler.OutputPathFacts | src/index.js:97 | The output path exists if and only if the filename is given and is absolute or has a directory, and it is then canonical. Otherwise Node's error names the argument at fault. |
| Compiler.EntryReadsBack | src/index.js:99-106 | A module's entry is exactly the emitted text. Its key reads back as the identifier, and its `eval` argument reads back as the code. |
| Compiler.KeyInjective | src/index.js:101 | Distinct identifiers get distinct keys. |
| Compiler.ModuleMapAppend | src/index.js:99-106 | The module map of consecutive stretches of modules is the concatenation of their maps. |
| Compiler.ModuleKeysDistinct | src/index.js:99-111 | Modules with distinct identifiers get pairwise distinct keys in the module map. |
| Compiler.ModuleMapCons | src/index.js:99-111 | The map is the first module's entry followed by the map of the rest, so entries keep the modules' order. |
| Compiler.ModuleMapHead | src/index.js:99-172 | When the first module is the entry, the map starts with the entry's key, the one the runtime requires first. |
| Runtime.Load | src/index.js:141-169 | A require never removes an identifier that was cached when it started. |
| Runtime.Loader.constructor | src/index.js:136-138 | The loader starts with an empty cache. |
| Runtime.Loader.Require | src/index.js:141-169 | Each call follows `Load`. The new cache and the starts are `Load`'s. The result is an error exactly when `Load` throws, with that message. On success, the exports object returned is the identifier's cache entry. |
| Runtime.Loader.Call | src/index.js:159-160 | Running a module function follows `Exec` step by step. |
| Runtime.Loader.Perform | src/index.js:160 | One step of a module function (a require, a write to its exports, or a throw) follows `Do`. |
| Runtime.Start | src/index.js:172 | The bundle's last call is a require of the entry on an empty cache. |
| Runtime.LoadKeeps | src/index.js:143-156 | A require never changes the entry of an identifier that was already cached. |
| Runtime.ExecKeeps | src/index.js:154-160 | A module function changes no cached entry but its own. |
| Runtime.LoadRuns | src/index.js:143-165 | Within one chain of requires, each module function starts at most once, and only for a registered identifier that was not cached. Everything newly cached started. Without an error, everything that started stays cached. |
| Runtime.ExecWrites | src/index.js:154-168 | A module function that runs to its end leaves its entry holding its writes, in order, the later ones winning. |
| Runtime.LoadFacts | src/index.js:143-168 | A cache hit returns at once and changes nothing. An unknown identifier throws "Cannot find module '<id>'". A successful first require returns the function's writes. |
| Runtime.ThrowForgets | src/index.js:159-165 | A module function that throws leaves no cache entry, so a later require starts it again. |
| Runtime.RequireCachedThenWrite | src/index.js:143-168 | A module that requires a cached identifier and then writes one field runs once and leaves just that field. |
| Runtime.Cycle | src/index.js:143-168 | For two modules that require each other, each function runs once and both entries end up holding their writes. |
| Runtime.FailingChain | src/index.js:159-165 | A module that requires a throwing module: both functions ran, both entries are deleted, and the error reaches the caller unchanged. |
| Cli.Merge | bin/mini-bundler.js:22-59 | The merge as written: the configuration file (or its error), then the options laid over it and the entry check. Its properties are stated by `Cli.ConfigFileRules`, `Cli.EntryRules`, `Cli.OutputRules` and `Cli.DefaultOutputRule`. |
| Cli.LoadConfig | bin/mini-bundler.js:20-59 | The action's statements up to `new Compiler` compute `Merge`. |
| Cli.ConfigFileRules | bin/mini-bundler.js:25-32 | An existing configuration file is the base. A missing non-default one is "Config file not found: <path>". A missing default one gives the empty base. A loading error is the result. |
| Cli.EntryRules | bin/mini-bundler.js:35-52 | Laying the options over a base succeeds if and only if `--entry` or the base gives a non-empty entry, and `--entry` wins. Otherwise the error is the "Entry file is required" message. The output is the merged output. |
| Cli.OutputRules | bin/mini-bundler.js:39-47 | In the merged configuration, a truthy `--output` wins over the file's directory and a `--filename` other than `bundle.js` wins over the file's name whenever the block runs; a field the command line does not set is the file's. |
| Cli.DefaultOutputRule | bin/mini-bundler.js:39-59 | Without an output in the file, the merged output is the default exactly when neither `--output` nor a non-empty `--filename` is given; with the default filename and no `--output` it is `{}`. |
| Cli.DefaultOutputMissed | bin/mini-bundler.js:39-59 | With no configuration file and only `--entry`, the output is `{}`, and `path.resolve` fails on the missing filename. |
| Cli.WithDefaults | bin/mini-bundler.js:54-59 | Both output fields are present. Given ones are kept, and missing ones take `./dist` and `bundle.js`. |
| Cli.Configure | bin/mini-bundler.js:20-59 | A merge error is the result. Otherwise the merged configuration is returned with the output defaults applied field by field. |
| Cli.ConfiguredOutputResolves | bin/mini-bundler.js:54-59 | With the defaults applied, every merged output has an output path. It agrees with the as-written one whenever that one has both fields. |
| Cli.Action | bin/mini-bundler.js:20-73 | A merge error is the action's error. For a merged configuration the result is `Compiler.Ran` of it with the output defaults applied: the first build error, or the bundle at the output path of its defaulted output. |

## Left out

- File reading and writing, `fs.existsSync`, `mkdirSync` and the size report are left out. Files are a map from absolute path to contents, and the bundle is returned as a path and a text rather than written.
- Console output is left out: progress lines, the configuration echo, and `path.relative` in log lines. The warnings of `getDependencies` are returned as a list.
- `process.exit(1)` on an error becomes an `Err` result carrying the message.
- Babel is abstracted. Parsing becomes the visited nodes (import declarations and call expressions) or a failure reason. The CommonJS compilation becomes a given text or error.
- `commander` is abstracted: the action receives the parsed options, `--config` and `--filename` with their defaults.
- A configuration file is the result of `require`-ing it: an object with an optional `entry` and an optional `{path, filename}` output of strings, or a loading error. Other fields, and fields of other types, are not modelled.
- Windows paths are not modelled: paths are POSIX. Backslashes are still doubled in keys, as the code does.
- Identifiers holding a quote or a line break are not modelled. The emitted single-quoted keys would not read back; `JsText.DoubledReadsBack` characterises exactly when they do.
- `eval` and JavaScript execution are not modelled. A module function is a script of requires, writes to its own exports, and throws, run in order.
- Runtime.Loader.Require: exports objects are values, so aliasing of an in-progress exports object handed to a cyclic requirer is not modelled.
- Runtime.Loader.Require: reassigning `module.exports`, reading exports, and catching errors inside a module function are not modelled.
- Runtime.Loader.Require: identifiers that name properties of `Object.prototype` are not modelled. The cache and module object are plain maps.
- Compiler.Compiler.BuildGraph: the `while` loop of `run()` is split out as its own method so that `Run` reads as walk-then-emit.
- Compiler.Compiler.BuildModule: builds with the corrected transform of findings 1 and 2, not the one src/index.js:79 calls; the as-written build is `Compiler.BuiltModuleAsWritten`, equal to it for modules whose dependencies all come from import declarations and hold no `$` (`Compiler.BuiltModuleAgrees`).
- Compiler.Compiler.BuildGraph: its modules carry the corrected transform's code, as `Compiler.Compiler.BuildModule` does.
- Compiler.Compiler.Run: the bundle it emits holds the corrected transform's code, as `Compiler.Compiler.BuildModule` does; the walk, its order, its errors and the emission are as written.
- Cli.Action: the action calls the corrected `Cli.Configure`. The as-written merge is `Cli.Merge`, whose failure is shown by `Cli.DefaultOutputMissed`.
- `status.js`, `test.js` and the example application are not part of this model.

## Findings

| source | as written | input that shows it | evidently intended | confidence | as-written member | corrected member |
|---|---|---|---|---|---|---|
| src/parser.js:102-116 | The relative-to-absolute map is filled from import declarations only. A CommonJS `require('./b')` is collected as a dependency but never rewritten, and the bundle's loader finds no module `./b`. | `/src/a.js` containing `require('./b')` | Every relative path collected as a dependency, whether import or require, is rewritten to its identifier. | not executed | Parser.TransformAsWritten, Parser.RequireLeftRelative, Compiler.BuildKeepsRelativeRequire | Parser.Transform, Parser.MappingMatchesDependencies |
| src/parser.js:132 | The call text is passed to `String.prototype.replace` as a replacement pattern. A `$$` in the absolute path becomes `$` (and `$&`, `` $` ``, `$'` expand). | `/w/$$/a.js` importing `./m` gives `require('/w/$/m.js')` | The call is inserted literally: `require('/w/$$/m.js')`. | not executed | Parser.DollarIdentifierMangled, Parser.JsRewriteHalvesDollars | Parser.Transform, Parser.CorrectedCallRewritten |
| bin/mini-bundler.js:39-59 | `--filename` defaults to `bundle.js`, so the output block always runs and sets `config.output` to `{}` when none is configured. The default output then never applies, and `path.resolve` at src/index.js:97 throws for the missing filename. | no configuration file; only `--entry src/index.js` | The output defaults to `./dist/bundle.js`. | not executed | Cli.Merge, Cli.DefaultOutputMissed | Cli.Configure, Cli.WithDefaults, Cli.ConfiguredOutputResolves |
