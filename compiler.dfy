/** The `Compiler` of src/index.js: the breadth-first walk over module
    identifiers, the building of one module, and the emission of the
    bundle text. The file system is the map `store`: an identifier that is
    not a key does not exist; a key maps to either the reason reading or
    parsing failed, or to the parsed nodes and the external compiler's
    output. */
module Compiler {
  import opened Wrappers
  import opened PosixPath
  import opened JsText
  import opened Parser

  /** The record `buildModule` returns. */
  datatype Module = Module(filename: string, dependencies: seq<string>, code: string)

  /** What reading and parsing an existing file gives. */
  datatype Source =
    | Unreadable(reason: string)
    | Parsed(nodes: seq<Node>, compiled: Result<string, string>)

  type Store = map<string, Source>

  /** `config.output`: either field may be absent. */
  datatype Output = Output(path: Option<string>, filename: Option<string>)

  datatype Config = Config(entry: string, output: Output)

  /** The file the bundle is written to, and its text. */
  datatype Artifact = Artifact(path: string, text: string)

  // ---------------------------------------------------------------------
  // buildModule

  function BuildFailure(filename: string, message: string): string {
    "Failed to build module " + filename + ": " + message
  }

  /** What `buildModule(filename)` returns or throws. */
  function BuiltModule(store: Store, filename: string): Result<Module, string>
    requires IsAbsolute(filename)
  {
    if filename !in store then Err(BuildFailure(filename, "Module not found: " + filename))
    else match store[filename]
      case Unreadable(reason) => Err(BuildFailure(filename, "Failed to parse " + filename + ": " + reason))
      case Parsed(nodes, compiled) =>
        match compiled
        case Err(e) => Err(BuildFailure(filename, "Failed to transform code: " + e))
        case Ok(code) =>
          Ok(Module(filename, Dependencies(filename, nodes), Rewrite(code, MappingOf(filename, DependencyPaths(nodes)))))
  }

  lemma MissingMessage(store: Store, filename: string)
    requires IsAbsolute(filename) && filename !in store
    ensures BuiltModule(store, filename) == Err("Failed to build module " + filename + ": Module not found: " + filename)
  {
    assert BuildFailure(filename, "Module not found: " + filename) ==
      "Failed to build module " + filename + ": Module not found: " + filename;
  }

  lemma ParseFailureMessage(store: Store, filename: string)
    requires IsAbsolute(filename) && filename in store && store[filename].Unreadable?
    ensures BuiltModule(store, filename) ==
      Err("Failed to build module " + filename + ": Failed to parse " + filename + ": " + store[filename].reason)
  {
    var reason := store[filename].reason;
    assert BuildFailure(filename, "Failed to parse " + filename + ": " + reason) ==
      "Failed to build module " + filename + ": Failed to parse " + filename + ": " + reason;
  }

  lemma TransformFailureMessage(store: Store, filename: string)
    requires IsAbsolute(filename) && filename in store && store[filename].Parsed? && store[filename].compiled.Err?
    ensures BuiltModule(store, filename) ==
      Err("Failed to build module " + filename + ": Failed to transform code: " + store[filename].compiled.error)
  {
    var e := store[filename].compiled.error;
    assert BuildFailure(filename, "Failed to transform code: " + e) ==
      "Failed to build module " + filename + ": Failed to transform code: " + e;
  }

  /** Every failure names the module; a missing file fails with "Module
      not found", an unreadable one with the parser's "Failed to parse"
      and a failed compilation with "Failed to transform code"; a built
      module keeps its identifier, lists the dependencies
      `getDependencies` finds, and has every one of them in canonical
      form. */
  lemma BuiltModuleFacts(store: Store, filename: string)
    requires IsAbsolute(filename)
    ensures filename !in store ==>
      BuiltModule(store, filename) == Err("Failed to build module " + filename + ": Module not found: " + filename)
    ensures filename in store && store[filename].Unreadable? ==>
      BuiltModule(store, filename) ==
        Err("Failed to build module " + filename + ": Failed to parse " + filename + ": " + store[filename].reason)
    ensures filename in store && store[filename].Parsed? && store[filename].compiled.Err? ==>
      BuiltModule(store, filename) ==
        Err("Failed to build module " + filename + ": Failed to transform code: " + store[filename].compiled.error)
    ensures BuiltModule(store, filename).Err? ==>
      "Failed to build module " + filename + ": " <= BuiltModule(store, filename).error
    ensures BuiltModule(store, filename).Ok? ==>
      && filename in store && store[filename].Parsed?
      && BuiltModule(store, filename).value.filename == filename
      && BuiltModule(store, filename).value.dependencies == Dependencies(filename, store[filename].nodes)
      && forall d :: d in BuiltModule(store, filename).value.dependencies ==> IsCanonical(d) && IsAbsolute(d)
  {
    var prefix := "Failed to build module " + filename + ": ";
    if filename !in store {
      MissingMessage(store, filename);
    } else if store[filename].Unreadable? {
      ParseFailureMessage(store, filename);
    } else if store[filename].compiled.Err? {
      TransformFailureMessage(store, filename);
    }
    if BuiltModule(store, filename).Err? {
      var e := BuiltModule(store, filename).error;
      assert e[..|prefix|] == prefix;
    }
    if BuiltModule(store, filename).Ok? {
      DependenciesCanonical(filename, store[filename].nodes);
    }
  }

  /** What `buildModule(filename)` returns or throws with `transform` as
      src/parser.js writes it. */
  function BuiltModuleAsWritten(store: Store, filename: string): Result<Module, string>
    requires IsAbsolute(filename)
  {
    if filename !in store then Err(BuildFailure(filename, "Module not found: " + filename))
    else match store[filename]
      case Unreadable(reason) => Err(BuildFailure(filename, "Failed to parse " + filename + ": " + reason))
      case Parsed(nodes, compiled) =>
        match TransformAsWritten(nodes, filename, compiled)
        case Err(e) => Err(BuildFailure(filename, e))
        case Ok(code) => Ok(Module(filename, Dependencies(filename, nodes), code))
  }

  /** The build as written and the corrected build fail alike and give
      the same identifier and dependencies; their code is the same for a
      module whose dependencies all come from import declarations and
      hold no "$". */
  lemma BuiltModuleAgrees(store: Store, filename: string)
    requires IsAbsolute(filename)
    ensures BuiltModuleAsWritten(store, filename).Err? <==> BuiltModule(store, filename).Err?
    ensures BuiltModuleAsWritten(store, filename).Err? ==>
      BuiltModuleAsWritten(store, filename).error == BuiltModule(store, filename).error
    ensures BuiltModuleAsWritten(store, filename).Ok? ==>
      && BuiltModuleAsWritten(store, filename).value.filename == BuiltModule(store, filename).value.filename
      && BuiltModuleAsWritten(store, filename).value.dependencies == BuiltModule(store, filename).value.dependencies
    ensures filename in store && store[filename].Parsed?
      && ImportPaths(store[filename].nodes) == DependencyPaths(store[filename].nodes)
      && (forall d :: d in Dependencies(filename, store[filename].nodes) ==> '$' !in d)
      ==> BuiltModuleAsWritten(store, filename) == BuiltModule(store, filename)
  {
    if filename in store && store[filename].Parsed? && store[filename].compiled.Ok? {
      var nodes := store[filename].nodes;
      if ImportPaths(nodes) == DependencyPaths(nodes) && forall d :: d in Dependencies(filename, nodes) ==> '$' !in d {
        AsWrittenAgrees(nodes, filename, store[filename].compiled.value);
      }
    }
  }

  /** A module of directory ds whose one call is `require('./n')`: built as
      written, its code still asks for "./n", which is not the identifier
      of its dependency; built with the corrected transform, it asks for
      the dependency. */
  lemma BuildKeepsRelativeRequire(ds: seq<string>, f: string, n: string, store: Store)
    requires AllNames(ds) && IsName(f) && IsName(n) && '.' !in n
    requires FitsSingleQuotes(Slashed(ds + [n]) + ".js")
    requires store == map[Slashed(ds + [f]) :=
      Parsed([CallExpression(Identifier("require"), [StringLiteral("./" + n)])], Ok(RequireCall('\'', "./" + n)))]
    ensures IsAbsolute(Slashed(ds + [f]))
    ensures var file, dep := Slashed(ds + [f]), Slashed(ds + [n]) + ".js";
      && BuiltModuleAsWritten(store, file) == Ok(Module(file, [dep], RequireCall('\'', "./" + n)))
      && BuiltModule(store, file) == Ok(Module(file, [dep], RewrittenCall(dep)))
  {
    RequireLeftRelative(ds, f, n);
  }

  // ---------------------------------------------------------------------
  // The breadth-first walk

  predicate Distinct(s: seq<string>) {
    forall i, j :: 0 <= i < j < |s| ==> s[i] != s[j]
  }

  function Elems(s: seq<string>): set<string> {
    set x | x in s
  }

  /** The values of `s` in order of first appearance: what a worklist
      that enqueues only unseen values receives. */
  function Dedup(s: seq<string>): seq<string> {
    if s == [] then []
    else
      var d := Dedup(s[..|s| - 1]);
      if s[|s| - 1] in d then d else d + [s[|s| - 1]]
  }

  function Filenames(ms: seq<Module>): (fs: seq<string>)
    ensures |fs| == |ms|
    ensures forall i :: 0 <= i < |ms| ==> fs[i] == ms[i].filename
  {
    if ms == [] then [] else Filenames(ms[..|ms| - 1]) + [ms[|ms| - 1].filename]
  }

  /** Every dependency of every module, module by module. */
  function AllDeps(ms: seq<Module>): seq<string> {
    if ms == [] then [] else AllDeps(ms[..|ms| - 1]) + ms[|ms| - 1].dependencies
  }

  /** The identifiers discovered once the modules `ms` have been
      processed, in the order they entered the queue. */
  function Discovery(entry: string, ms: seq<Module>): seq<string> {
    Dedup([entry] + AllDeps(ms))
  }

  /** `ms` is what the walk from `entry` processes, in order: the i-th
      module is the i-th identifier to enter the queue, and it had been
      discovered (as the entry or as a dependency of an earlier module)
      when it was processed. */
  predicate Bfs(entry: string, ms: seq<Module>) {
    && |ms| <= |Discovery(entry, ms)|
    && (forall j :: 0 <= j < |ms| ==> ms[j].filename == Discovery(entry, ms)[j])
    && (forall j :: 0 <= j < |ms| ==> ms[j].filename in [entry] + AllDeps(ms[..j]))
  }

  /** The walk is over: nothing discovered is left unprocessed. */
  predicate Complete(entry: string, ms: seq<Module>) {
    Bfs(entry, ms) && |ms| == |Discovery(entry, ms)|
  }

  /** Every identifier the walk can meet: the entry and every dependency of
      a file that builds. */
  function Universe(store: Store, entry: string): set<string> {
    {entry} + set f, d | f in store && IsAbsolute(f) && BuiltModule(store, f).Ok?
      && d in BuiltModule(store, f).value.dependencies :: d
  }

  lemma {:induction false} DedupElems(s: seq<string>)
    ensures forall x :: x in Dedup(s) <==> x in s
    decreases |s|
  {
    if s != [] {
      var init := s[..|s| - 1];
      DedupElems(init);
      assert s == init + [s[|s| - 1]];
    }
  }

  lemma {:induction false} DedupDistinct(s: seq<string>)
    ensures Distinct(Dedup(s))
    decreases |s|
  {
    if s != [] {
      DedupDistinct(s[..|s| - 1]);
    }
  }

  lemma DedupSnoc(s: seq<string>, x: string)
    ensures Dedup(s + [x]) == if x in s then Dedup(s) else Dedup(s) + [x]
  {
    assert (s + [x])[..|s|] == s;
    DedupElems(s);
  }

  /** Discovery only grows at its end. */
  lemma {:induction false} DedupPrefix(s: seq<string>, t: seq<string>)
    ensures |Dedup(s)| <= |Dedup(s + t)|
    ensures Dedup(s + t)[..|Dedup(s)|] == Dedup(s)
    decreases |t|
  {
    if t == [] {
      assert s + t == s;
    } else {
      var t', x := t[..|t| - 1], t[|t| - 1];
      DedupPrefix(s, t');
      assert s + t == (s + t') + [x];
      DedupSnoc(s + t', x);
    }
  }

  lemma {:induction false} DistinctCard(s: seq<string>)
    requires Distinct(s)
    ensures |Elems(s)| == |s|
    decreases |s|
  {
    if s != [] {
      var init, x := s[..|s| - 1], s[|s| - 1];
      DistinctCard(init);
      assert Elems(s) == Elems(init) + {x};
      assert x !in Elems(init);
    }
  }

  lemma AllDepsSnoc(ms: seq<Module>, m: Module)
    ensures AllDeps(ms + [m]) == AllDeps(ms) + m.dependencies
  {
    assert (ms + [m])[..|ms|] == ms;
  }

  lemma {:induction false} AllDepsMembers(ms: seq<Module>, d: string)
    ensures d in AllDeps(ms) <==> exists i :: 0 <= i < |ms| && d in ms[i].dependencies
    decreases |ms|
  {
    if ms != [] {
      var init := ms[..|ms| - 1];
      AllDepsMembers(init, d);
      if exists i :: 0 <= i < |ms| && d in ms[i].dependencies {
        var i :| 0 <= i < |ms| && d in ms[i].dependencies;
        if i < |init| { assert init[i] == ms[i]; }
      }
      if exists i :: 0 <= i < |init| && d in init[i].dependencies {
        var i :| 0 <= i < |init| && d in init[i].dependencies;
        assert init[i] == ms[i];
      }
    }
  }

  /** A finished walk lists each identifier once, starts at the entry,
      and the number of modules is at most the number of distinct
      identifiers discovered. */
  lemma {:induction false} CompleteDistinct(entry: string, ms: seq<Module>)
    requires Complete(entry, ms)
    ensures Distinct(Filenames(ms))
    ensures |ms| > 0 && ms[0].filename == entry
    ensures Elems(Filenames(ms)) == Elems([entry] + AllDeps(ms))
  {
    var order := Discovery(entry, ms);
    DedupDistinct([entry] + AllDeps(ms));
    DedupElems([entry] + AllDeps(ms));
    assert Filenames(ms) == order;
    DedupPrefix([entry], AllDeps(ms));
    assert Dedup([entry]) == [entry] by {
      assert [entry][..0] == [];
    }
  }

  /** Closure: every dependency of a processed module is itself a
      processed module. */
  lemma CompleteClosed(entry: string, ms: seq<Module>, i: nat, d: string)
    requires Complete(entry, ms) && i < |ms| && d in ms[i].dependencies
    ensures exists j :: 0 <= j < |ms| && ms[j].filename == d
  {
    AllDepsMembers(ms, d);
    CompleteDistinct(entry, ms);
    assert d in Elems([entry] + AllDeps(ms));
    assert d in Filenames(ms);
  }

  /** Every module but the first is a dependency of an earlier one. */
  lemma Parent(entry: string, ms: seq<Module>, k: nat) returns (j: nat)
    requires Bfs(entry, ms) && 0 < k < |ms| && Distinct(Filenames(ms))
    requires ms[0].filename == entry
    ensures j < k && ms[k].filename in ms[j].dependencies
  {
    assert ms[k].filename != entry by {
      assert Filenames(ms)[0] != Filenames(ms)[k];
    }
    assert ms[k].filename in AllDeps(ms[..k]);
    AllDepsMembers(ms[..k], ms[k].filename);
    var i :| 0 <= i < k && ms[k].filename in ms[..k][i].dependencies;
    j := i;
  }

  /** Reachability: every module of a finished walk is reached from the
      entry along a chain of dependencies. */
  lemma {:induction false} ReachedFromEntry(entry: string, ms: seq<Module>, k: nat) returns (chain: seq<nat>)
    requires Complete(entry, ms) && k < |ms|
    ensures |chain| > 0 && chain[0] == 0 && chain[|chain| - 1] == k
    ensures forall i :: 0 <= i < |chain| ==> chain[i] < |ms|
    ensures forall i :: 0 <= i < |chain| - 1 ==> ms[chain[i + 1]].filename in ms[chain[i]].dependencies
    decreases k
  {
    CompleteDistinct(entry, ms);
    if k == 0 {
      chain := [0];
    } else {
      var j := Parent(entry, ms, k);
      var c := ReachedFromEntry(entry, ms, j);
      chain := c + [k];
      assert chain[|c| - 1] == j;
    }
  }

  // ---------------------------------------------------------------------
  // emitFiles and generateRuntime

  /** The key a module is registered under: its identifier with every
      backslash doubled, as the text between the quotes. */
  function Key(filename: string): string {
    DoubleBackslashes(filename)
  }

  /** One property of the module map. */
  function ModuleEntry(m: Module): string {
    "  '" + Key(m.filename) + "'" + ": function(require, module, exports) {\neval(" + JsonQuote(m.code) + ");\n  },\n"
  }

  /** The entries of the modules, in order. */
  function Entries(ms: seq<Module>): (es: seq<string>)
    ensures |es| == |ms|
    ensures forall i :: 0 <= i < |ms| ==> es[i] == ModuleEntry(ms[i])
  {
    seq(|ms|, i requires 0 <= i < |ms| => ModuleEntry(ms[i]))
  }

  function Concat(ss: seq<string>): string {
    if ss == [] then "" else Concat(ss[..|ss| - 1]) + ss[|ss| - 1]
  }

  /** The module map's body: one entry per module, in order. */
  function ModuleMap(ms: seq<Module>): string {
    Concat(Entries(ms))
  }

  /** The loader text that precedes the entry call. */
  const LoaderText: string :=
    "\n(function(modules) {\n"
    + "    // 模块缓存\n"
    + "    const installedModules = {};\n"
    + "    \n"
    + "    // 模块加载函数\n"
    + "    function __webpack_require__(moduleId) {\n"
    + "        // 检查模块是否已在缓存中\n"
    + "        if (installedModules[moduleId]) {\n"
    + "            return installedModules[moduleId].exports;\n"
    + "        }\n"
    + "        \n"
    + "        // 获取模块函数\n"
    + "        const moduleFunction = modules[moduleId];\n"
    + "        if (!moduleFunction) {\n"
    + "            throw new Error(\"Cannot find module '\" + moduleId + \"'\");\n"
    + "        }\n"
    + "        \n"
    + "        // 创建模块对象并缓存\n"
    + "        const module = installedModules[moduleId] = {\n"
    + "            exports: {}\n"
    + "        };\n"
    + "        \n"
    + "        // 执行模块函数\n"
    + "        try {\n"
    + "            moduleFunction.call(module.exports, __webpack_require__, module, module.exports);\n"
    + "        } catch (error) {\n"
    + "            // 清理缓存\n"
    + "            delete installedModules[moduleId];\n"
    + "            throw error;\n"
    + "        }\n"
    + "        \n"
    + "        // 返回模块的导出\n"
    + "        return module.exports;\n"
    + "    }\n"
    + "    \n"
    + "    // 启动应用程序\n"

  /** `generateRuntime()`: the loader, ending in the call that loads the
      entry. */
  function GenerateRuntime(entry: string): string {
    LoaderText + "    return __webpack_require__('" + Key(entry) + "');\n})"
  }

  /** The bundle text: the runtime applied to the module map. */
  function Bundle(entry: string, ms: seq<Module>): string {
    GenerateRuntime(entry) + "({\n" + ModuleMap(ms) + "});"
  }

  /** Node's message for an argument of `path.resolve` that is not a
      string; `index` is its position, in decimal. */
  function ArgumentError(index: string): string {
    "The \"paths[" + index + "]\" argument must be of type string. Received undefined"
  }

  /** `path.resolve(process.cwd(), output.path, output.filename)`: the
      arguments are checked from the right, and the check stops at the
      first absolute one, so an absolute filename makes the path
      irrelevant. */
  function OutputPath(cwd: string, output: Output): Result<string, string>
    requires IsAbsolute(cwd)
  {
    match output.filename
    case None => Err(ArgumentError("2"))
    case Some(name) =>
      if IsAbsolute(name) then Ok(Resolve([cwd, name]))
      else match output.path
        case None => Err(ArgumentError("1"))
        case Some(dir) => Ok(Resolve([cwd, dir, name]))
  }

  /** What `emitFiles` produces for the modules `ms`. */
  function Emitted(cwd: string, entry: string, output: Output, ms: seq<Module>): Result<Artifact, string>
    requires IsAbsolute(cwd)
  {
    match OutputPath(cwd, output)
    case Err(e) => Err(e)
    case Ok(p) => Ok(Artifact(p, Bundle(entry, ms)))
  }

  /** The output path is computed exactly when the filename is given and
      is absolute or comes with a directory; it is then canonical. */
  lemma OutputPathFacts(cwd: string, output: Output)
    requires IsAbsolute(cwd)
    ensures OutputPath(cwd, output).Ok? <==>
      output.filename.Some? && (IsAbsolute(output.filename.value) || output.path.Some?)
    ensures OutputPath(cwd, output).Ok? ==> IsCanonical(OutputPath(cwd, output).value)
    ensures output.filename.None? ==> OutputPath(cwd, output) == Err(ArgumentError("2"))
    ensures output.filename.Some? && !IsAbsolute(output.filename.value) && output.path.None? ==>
      OutputPath(cwd, output) == Err(ArgumentError("1"))
  {
    match output.filename
    case None =>
    case Some(name) =>
      if IsAbsolute(name) {
        ResolveCanonical([cwd, name]);
      } else if output.path.Some? {
        ResolveCanonical([cwd, output.path.value, name]);
      }
  }

  /** The module map grows by one entry per module. */
  lemma ModuleMapStep(ms: seq<Module>, i: nat)
    requires i < |ms|
    ensures ModuleMap(ms[..i + 1]) == ModuleMap(ms[..i]) + ModuleEntry(ms[i])
  {
    var es := Entries(ms[..i + 1]);
    assert es[..i] == Entries(ms[..i]);
    assert es[i] == ModuleEntry(ms[i]);
  }

  lemma {:induction false} ConcatAppend(a: seq<string>, b: seq<string>)
    ensures Concat(a + b) == Concat(a) + Concat(b)
    decreases |b|
  {
    if b == [] {
      assert a + b == a;
    } else {
      var b' := b[..|b| - 1];
      assert (a + b)[..|a + b| - 1] == a + b';
      ConcatAppend(a, b');
    }
  }

  /** The map of consecutive stretches of modules is the concatenation of
      their maps. */
  lemma ModuleMapAppend(a: seq<Module>, b: seq<Module>)
    ensures ModuleMap(a + b) == ModuleMap(a) + ModuleMap(b)
  {
    assert Entries(a + b) == Entries(a) + Entries(b);
    ConcatAppend(Entries(a), Entries(b));
  }

  /** One module's entry: its key reads back, between the single quotes,
      as the module's identifier, and the argument of `eval` reads back
      as its code. */
  lemma EntryReadsBack(m: Module)
    requires FitsSingleQuotes(m.filename)
    ensures ModuleEntry(m) ==
      "  '" + Key(m.filename) + "'" + ": function(require, module, exports) {\neval(\""
      + JsonBody(m.code) + "\");\n  },\n"
    ensures SingleQuotedValue(Key(m.filename)) == Some(m.filename)
    ensures DoubleQuotedValue(JsonBody(m.code)) == Some(m.code)
  {
    DoubledReadsBack(m.filename);
    JsonReadsBack(m.code);
  }

  /** Doubling backslashes is injective: distinct modules get distinct
      keys. */
  lemma {:induction false} KeyInjective(a: string, b: string)
    requires Key(a) == Key(b)
    ensures a == b
    decreases |a|
  {
    if a != [] && b != [] {
      var ka, kb := Key(a), Key(b);
      assert ka[0] == a[0] && kb[0] == b[0];
      if a[0] == '\\' {
        assert ka == "\\\\" + Key(a[1..]) && kb == "\\\\" + Key(b[1..]);
        assert Key(a[1..]) == ka[2..] == kb[2..] == Key(b[1..]);
      } else {
        assert ka == [a[0]] + Key(a[1..]) && kb == [b[0]] + Key(b[1..]);
        assert Key(a[1..]) == ka[1..] == kb[1..] == Key(b[1..]);
      }
      KeyInjective(a[1..], b[1..]);
      assert a == [a[0]] + a[1..] && b == [b[0]] + b[1..];
    }
  }

  /** Distinct identifiers give pairwise distinct keys. */
  lemma {:induction false} ModuleKeysDistinct(ms: seq<Module>)
    requires Distinct(Filenames(ms))
    ensures forall i, j :: 0 <= i < j < |ms| ==> Key(ms[i].filename) != Key(ms[j].filename)
  {
    forall i, j | 0 <= i < j < |ms| ensures Key(ms[i].filename) != Key(ms[j].filename) {
      KeysDiffer(Filenames(ms), i, j);
    }
  }

  lemma {:induction false} KeysDiffer(fs: seq<string>, i: int, j: int)
    requires Distinct(fs) && 0 <= i < j < |fs|
    ensures Key(fs[i]) != Key(fs[j])
  {
    if Key(fs[i]) == Key(fs[j]) {
      KeyInjective(fs[i], fs[j]);
    }
  }

  /** The map opens with the entry of the first module. */
  lemma {:induction false} ModuleMapCons(ms: seq<Module>)
    requires ms != []
    ensures ModuleMap(ms) == ModuleEntry(ms[0]) + ModuleMap(ms[1..])
  {
    ModuleMapAppend([ms[0]], ms[1..]);
    assert [ms[0]] + ms[1..] == ms;
    ModuleMapSingle(ms[0]);
  }

  lemma ModuleMapSingle(m: Module)
    ensures ModuleMap([m]) == ModuleEntry(m)
  {
    ModuleMapStep([m], 0);
    assert [m][..1] == [m] && [m][..0] == [];
  }

  /** When the first module is the entry, the map starts with the
      entry's key, the one the runtime requires first. */
  lemma {:induction false} ModuleMapHead(entry: string, ms: seq<Module>)
    requires ms != [] && ms[0].filename == entry
    ensures "  '" + Key(entry) + "'" <= ModuleMap(ms)
  {
    ModuleMapCons(ms);
    var e := ModuleEntry(ms[0]);
    var head := "  '" + Key(entry) + "'";
    assert e[..|head|] == head;
    assert (e + ModuleMap(ms[1..]))[..|head|] == head;
  }

  // ---------------------------------------------------------------------
  // The state of the walk between two iterations

  /** The modules processed so far were built from their files and are a
      prefix of the walk. */
  predicate Processed(store: Store, entry: string, built: seq<Module>) {
    && Bfs(entry, built)
    && forall j :: 0 <= j < |built| ==>
         IsAbsolute(built[j].filename) && BuiltModule(store, built[j].filename) == Ok(built[j])
  }

  /** Queue and set of the walk once `built` has been processed: the queue
      holds what was discovered and not yet processed, the set everything
      discovered, all of it in the universe `u`. */
  predicate Walk(store: Store, entry: string, u: set<string>, built: seq<Module>, queue: seq<string>, processed: set<string>) {
    && Processed(store, entry, built)
    && queue == Discovery(entry, built)[|built|..]
    && processed == Elems(Discovery(entry, built))
    && processed <= u
    && forall x :: x in processed ==> IsAbsolute(x)
  }

  /** The state while the dependencies `deps` of the module at position
      `k` are scanned, `i` of them so far. */
  predicate Scan(pre: seq<string>, deps: seq<string>, i: nat, k: nat, u: set<string>, queue: seq<string>, processed: set<string>)
    requires i <= |deps|
  {
    && k + 1 <= |Dedup(pre + deps[..i])|
    && queue == Dedup(pre + deps[..i])[k + 1..]
    && processed == Elems(Dedup(pre + deps[..i]))
    && processed <= u
    && forall x :: x in processed ==> IsAbsolute(x)
  }

  lemma WalkStart(store: Store, entry: string)
    requires IsAbsolute(entry)
    ensures Walk(store, entry, Universe(store, entry), [], [entry], {entry})
  {
    assert [entry] + AllDeps([]) == [entry];
    assert [entry][..0] == [];
    assert Dedup([entry]) == [entry];
    assert Discovery(entry, []) == [entry];
  }

  /** The bound on the walk: no more modules than identifiers in the
      universe. */
  lemma WalkBound(store: Store, entry: string, u: set<string>, built: seq<Module>, queue: seq<string>, processed: set<string>)
    requires Walk(store, entry, u, built, queue, processed)
    ensures |built| <= |Discovery(entry, built)| <= |u|
  {
    DedupDistinct([entry] + AllDeps(built));
    DistinctCard(Discovery(entry, built));
    SubsetCard(processed, u);
  }

  lemma SubsetCard(a: set<string>, b: set<string>)
    requires a <= b
    ensures |a| <= |b|
  {
    assert b == a + (b - a);
    assert a * (b - a) == {};
  }

  /** At the head of the loop: the module at the head of the queue is the
      next identifier of the walk, and scanning starts from the state the
      walk had with that head taken off the queue. */
  lemma WalkHead(store: Store, entry: string, u: set<string>, built: seq<Module>, queue: seq<string>, processed: set<string>)
    requires Walk(store, entry, u, built, queue, processed) && queue != []
    ensures |built| < |Discovery(entry, built)| <= |u|
    ensures queue[0] == Discovery(entry, built)[|built|] && IsAbsolute(queue[0])
    ensures Scan([entry] + AllDeps(built), [], 0, |built|, u, queue[1..], processed)
  {
    assert queue[0] in Discovery(entry, built);
    WalkBound(store, entry, u, built, queue, processed);
    var pre := [entry] + AllDeps(built);
    assert pre + [][..0] == pre;
  }

  /** One dependency scanned: enqueued and recorded exactly when it was
      not seen before, which takes it out of the unseen universe. */
  lemma ScanStep(pre: seq<string>, deps: seq<string>, i: nat, k: nat, u: set<string>, queue: seq<string>, processed: set<string>)
    requires i < |deps| && deps[i] in u && IsAbsolute(deps[i])
    requires Scan(pre, deps, i, k, u, queue, processed)
    ensures deps[i] in processed ==> Scan(pre, deps, i + 1, k, u, queue, processed)
    ensures deps[i] !in processed ==>
      && Scan(pre, deps, i + 1, k, u, queue + [deps[i]], processed + {deps[i]})
      && |u - (processed + {deps[i]})| == |u - processed| - 1
  {
    var d := deps[i];
    var s := pre + deps[..i];
    assert pre + deps[..i + 1] == s + [d];
    DedupSnoc(s, d);
    DedupElems(s);
    if d !in processed {
      assert u - (processed + {d}) == (u - processed) - {d};
    }
  }

  /** Processing one more module extends the discovery sequence; what
      was discovered before keeps its place. */
  lemma DiscoverySnoc(entry: string, built: seq<Module>, m: Module)
    ensures Discovery(entry, built + [m]) == Dedup([entry] + AllDeps(built) + m.dependencies)
    ensures |Discovery(entry, built)| <= |Discovery(entry, built + [m])|
    ensures Discovery(entry, built + [m])[..|Discovery(entry, built)|] == Discovery(entry, built)
  {
    AllDepsSnoc(built, m);
    assert [entry] + AllDeps(built + [m]) == [entry] + AllDeps(built) + m.dependencies;
    DedupPrefix([entry] + AllDeps(built), m.dependencies);
  }

  lemma BuiltName(store: Store, f: string)
    requires IsAbsolute(f) && BuiltModule(store, f).Ok?
    ensures BuiltModule(store, f).value.filename == f
  {
  }

  /** The walk order survives processing its next module. */
  lemma BfsSnoc(entry: string, built: seq<Module>, m: Module)
    requires Bfs(entry, built)
    requires |built| < |Discovery(entry, built)| && m.filename == Discovery(entry, built)[|built|]
    ensures Bfs(entry, built + [m])
  {
    var nb := built + [m];
    DiscoverySnoc(entry, built, m);
    DedupElems([entry] + AllDeps(built));
    assert nb[..|built|] == built;
    forall j | 0 <= j < |nb| ensures nb[j].filename == Discovery(entry, nb)[j] {
      if j < |built| {
        assert Discovery(entry, nb)[j] == Discovery(entry, nb)[..|Discovery(entry, built)|][j];
      }
    }
    forall j | 0 <= j < |nb| ensures nb[j].filename in [entry] + AllDeps(nb[..j]) {
      if j < |built| {
        assert nb[..j] == built[..j];
      }
    }
  }

  /** The walk's prefix property survives processing its next module. */
  lemma ProcessedSnoc(store: Store, entry: string, built: seq<Module>, m: Module)
    requires Processed(store, entry, built)
    requires |built| < |Discovery(entry, built)|
    requires var f := Discovery(entry, built)[|built|];
      IsAbsolute(f) && BuiltModule(store, f) == Ok(m)
    ensures Processed(store, entry, built + [m])
  {
    BuiltName(store, Discovery(entry, built)[|built|]);
    BfsSnoc(entry, built, m);
    var nb := built + [m];
    assert forall j :: 0 <= j < |built| ==> nb[j] == built[j];
  }

  /** Scanning done: the module joins the processed ones and the walk's
      state holds again. */
  lemma WalkStep(store: Store, entry: string, u: set<string>, built: seq<Module>, m: Module,
                 queue: seq<string>, processed: set<string>)
    requires Processed(store, entry, built)
    requires |built| < |Discovery(entry, built)|
    requires var f := Discovery(entry, built)[|built|];
      IsAbsolute(f) && BuiltModule(store, f) == Ok(m)
    requires Scan([entry] + AllDeps(built), m.dependencies, |m.dependencies|, |built|, u, queue, processed)
    ensures Walk(store, entry, u, built + [m], queue, processed)
  {
    ProcessedSnoc(store, entry, built, m);
    DiscoverySnoc(entry, built, m);
    assert m.dependencies[..|m.dependencies|] == m.dependencies;
  }

  lemma SnocAssociative<T>(a: seq<T>, b: seq<T>, x: T)
    ensures a + b + [x] == a + (b + [x])
  {
  }

  /** Each dependency of a module that builds is in the universe. */
  lemma DepsInUniverse(store: Store, entry: string, f: string)
    requires IsAbsolute(f) && BuiltModule(store, f).Ok?
    ensures forall d :: d in BuiltModule(store, f).value.dependencies ==>
      d in Universe(store, entry) && IsAbsolute(d)
  {
    BuiltModuleFacts(store, f);
    assert f in store;
  }

  /** Every identifier discovered by a prefix of the walk is absolute and in
      the universe, so there are at most as many as the universe holds. */
  lemma DiscoveryBound(store: Store, entry: string, built: seq<Module>)
    requires IsAbsolute(entry) && Processed(store, entry, built)
    ensures |built| <= |Discovery(entry, built)| <= |Universe(store, entry)|
    ensures forall x :: x in Discovery(entry, built) ==> IsAbsolute(x) && x in Universe(store, entry)
  {
    var u := Universe(store, entry);
    forall x | x in Discovery(entry, built)
      ensures IsAbsolute(x) && x in u
    {
      DedupElems([entry] + AllDeps(built));
      if x != entry {
        assert x in AllDeps(built);
        AllDepsMembers(built, x);
        var i :| 0 <= i < |built| && x in built[i].dependencies;
        DepsInUniverse(store, entry, built[i].filename);
      }
    }
    DedupDistinct([entry] + AllDeps(built));
    DistinctCard(Discovery(entry, built));
    SubsetCard(Elems(Discovery(entry, built)), u);
  }

  /** The rest of the walk of `run()` once the modules `built` are
      processed: all modules of the walk, in order, or the error of the
      first identifier that fails to build. */
  function Walked(store: Store, entry: string, built: seq<Module>): Result<seq<Module>, string>
    requires IsAbsolute(entry) && Processed(store, entry, built)
    decreases |Universe(store, entry)| - |built|
  {
    DiscoveryBound(store, entry, built);
    if |built| == |Discovery(entry, built)| then Ok(built)
    else
      var next := Discovery(entry, built)[|built|];
      match BuiltModule(store, next)
      case Err(e) => Err(e)
      case Ok(m) =>
        ProcessedSnoc(store, entry, built, m);
        Walked(store, entry, built + [m])
  }

  /** The walk goes on past a module that builds. */
  lemma WalkedStep(store: Store, entry: string, built: seq<Module>, m: Module)
    requires IsAbsolute(entry) && Processed(store, entry, built)
    requires |built| < |Discovery(entry, built)|
    requires var f := Discovery(entry, built)[|built|];
      IsAbsolute(f) && BuiltModule(store, f) == Ok(m)
    ensures Processed(store, entry, built + [m])
    ensures Walked(store, entry, built) == Walked(store, entry, built + [m])
  {
    ProcessedSnoc(store, entry, built, m);
  }

  /** The walk stops at the first module that fails to build, with its
      error. */
  lemma WalkedStop(store: Store, entry: string, built: seq<Module>)
    requires IsAbsolute(entry) && Processed(store, entry, built)
    requires |built| < |Discovery(entry, built)|
    requires var f := Discovery(entry, built)[|built|];
      IsAbsolute(f) && BuiltModule(store, f).Err?
    ensures Walked(store, entry, built) == Err(BuiltModule(store, Discovery(entry, built)[|built|]).error)
  {
  }

  /** A walk that finishes extends what was processed into a complete
      walk of modules built from their files. */
  lemma {:induction false} WalkedDone(store: Store, entry: string, built: seq<Module>)
    requires IsAbsolute(entry) && Processed(store, entry, built)
    requires Walked(store, entry, built).Ok?
    ensures var ms := Walked(store, entry, built).value;
      Processed(store, entry, ms) && Complete(entry, ms) && |built| <= |ms| && ms[..|built|] == built
    decreases |Universe(store, entry)| - |built|
  {
    DiscoveryBound(store, entry, built);
    if |built| == |Discovery(entry, built)| {
      assert Walked(store, entry, built) == Ok(built);
    } else {
      var next := Discovery(entry, built)[|built|];
      var m := BuiltModule(store, next).value;
      WalkedStep(store, entry, built, m);
      WalkedDone(store, entry, built + [m]);
      var ms := Walked(store, entry, built).value;
      assert ms == Walked(store, entry, built + [m]).value;
      assert ms[..|built| + 1][..|built|] == ms[..|built|];
    }
  }

  /** The walk failed with `e` after processing `ms`, a breadth-first
      prefix extending `built`: the identifier discovered next is absolute
      and its build gives `e`. */
  predicate FailedAfter(store: Store, entry: string, built: seq<Module>, ms: seq<Module>, e: string) {
    && Processed(store, entry, ms) && |built| <= |ms| && ms[..|built|] == built
    && |ms| < |Discovery(entry, ms)| && IsAbsolute(Discovery(entry, ms)[|ms|])
    && BuiltModule(store, Discovery(entry, ms)[|ms|]) == Err(e)
  }

  /** Failing after a longer prefix is failing after a shorter one. */
  lemma FailedAfterShorter(store: Store, entry: string, built: seq<Module>, m: Module, ms: seq<Module>, e: string)
    requires FailedAfter(store, entry, built + [m], ms, e)
    ensures FailedAfter(store, entry, built, ms, e)
  {
    assert ms[..|built| + 1][..|built|] == ms[..|built|];
  }

  /** A walk that fails stops after a breadth-first prefix of processed
      modules extending `built`: the identifier discovered next is the
      first whose build fails, and its error is the walk's. */
  lemma {:induction false} WalkedFails(store: Store, entry: string, built: seq<Module>) returns (ms: seq<Module>)
    requires IsAbsolute(entry) && Processed(store, entry, built)
    requires Walked(store, entry, built).Err?
    ensures FailedAfter(store, entry, built, ms, Walked(store, entry, built).error)
    decreases |Universe(store, entry)| - |built|
  {
    DiscoveryBound(store, entry, built);
    var next := Discovery(entry, built)[|built|];
    if BuiltModule(store, next).Err? {
      WalkedStop(store, entry, built);
      ms := built;
      assert built[..|built|] == built;
    } else {
      var m := BuiltModule(store, next).value;
      WalkedStep(store, entry, built, m);
      ms := WalkedFails(store, entry, built + [m]);
      FailedAfterShorter(store, entry, built, m, ms, Walked(store, entry, built).error);
    }
  }

  /** What `new Compiler(config).run()` returns: the emission from the
      modules of the walk, or the walk's error. */
  function Ran(cwd: string, store: Store, config: Config): Result<Artifact, string>
    requires IsAbsolute(cwd)
  {
    var entry := Resolve([cwd, config.entry]);
    match Walked(store, entry, [])
    case Err(e) => Err(e)
    case Ok(ms) => Emitted(cwd, entry, config.output, ms)
  }

  class Compiler {
    const cwd: string
    const store: Store
    const config: Config
    /** The entry resolved against the working directory: the identifier
        the walk starts from. */
    const entry: string
    const output: Output
    var modules: seq<Module>

    predicate Valid() {
      IsAbsolute(cwd) && IsAbsolute(entry) && entry == Resolve([cwd, config.entry]) && output == config.output
    }

    constructor(cwd: string, store: Store, config: Config)
      requires IsAbsolute(cwd)
      ensures Valid()
      ensures this.cwd == cwd && this.store == store && this.config == config
      ensures entry == Resolve([cwd, config.entry]) && output == config.output
      ensures modules == []
    {
      this.cwd := cwd;
      this.store := store;
      this.config := config;
      this.entry := Resolve([cwd, config.entry]);
      this.output := config.output;
      this.modules := [];
    }

    /** `buildModule(filename)`. */
    method BuildModule(filename: string) returns (r: Result<Module, string>)
      requires IsAbsolute(filename)
      ensures r == BuiltModule(store, filename)
    {
      if filename !in store {
        return Err(BuildFailure(filename, "Module not found: " + filename));
      }
      match store[filename]
      case Unreadable(reason) =>
        return Err(BuildFailure(filename, "Failed to parse " + filename + ": " + reason));
      case Parsed(ast, compiled) =>
        var dependencies, _ := GetDependencies(ast, filename);
        var code := Transform(ast, filename, dependencies, compiled);
        if code.Err? {
          return Err(BuildFailure(filename, code.error));
        }
        return Ok(Module(filename, dependencies, code.value));
    }

    /** `emitFiles()`, up to the write itself: where the bundle goes and
        what it holds. */
    method EmitFiles() returns (r: Result<Artifact, string>)
      requires Valid()
      ensures r == Emitted(cwd, entry, output, modules)
    {
      var outputPath := OutputPath(cwd, output);
      if outputPath.Err? {
        return Err(outputPath.error);
      }
      var modulesForBundle := "";
      for i := 0 to |modules|
        invariant modulesForBundle == ModuleMap(modules[..i])
      {
        ModuleMapStep(modules, i);
        var current := modules[i];
        var escapedPath := DoubleBackslashes(current.filename);
        modulesForBundle := modulesForBundle + ("  '" + escapedPath + "'" + ": function(require, module, exports) {\neval("
          + JsonQuote(current.code) + ");\n  },\n");
      }
      assert modules[..|modules|] == modules;
      var runtimeCode := GenerateRuntime(entry);
      return Ok(Artifact(outputPath.value, runtimeCode + "({\n" + modulesForBundle + "});"));
    }

    /** `run()`: the breadth-first walk from the entry, then the emission.
        The modules it appends are a prefix of the walk. When the walk
        finishes they are all the modules of `Walked` and the result is
        what `emitFiles` produces from them; otherwise the result is the
        walk's error. On a fresh compiler this is `Ran`. */
    method Run() returns (r: Result<Artifact, string>)
      requires Valid()
      modifies this
      ensures |modules| >= |old(modules)| && modules[..|old(modules)|] == old(modules)
      ensures Processed(store, entry, modules[|old(modules)|..])
      ensures Walked(store, entry, []).Err? ==> r == Err(Walked(store, entry, []).error)
      ensures Walked(store, entry, []).Ok? ==>
        modules == old(modules) + Walked(store, entry, []).value && r == Emitted(cwd, entry, output, modules)
      ensures old(modules) == [] ==> r == Ran(cwd, store, config)
    {
      var failure := BuildGraph();
      if failure.Some? {
        return Err(failure.value);
      }
      r := EmitFiles();
    }

    /** The first phase of `run()`: the queue starts with the entry, each
        identifier taken from its head is built and appended to `modules`,
        and each dependency not seen before is added to the set and the
        queue. The walk stops at the first module that fails to build:
        the failure is exactly the error of `Walked`, and otherwise the
        modules appended are those of `Walked`. */
    method BuildGraph() returns (failure: Option<string>)
      requires Valid()
      modifies this
      ensures |modules| >= |old(modules)| && modules[..|old(modules)|] == old(modules)
      ensures Processed(store, entry, modules[|old(modules)|..])
      ensures failure.Some? <==> Walked(store, entry, []).Err?
      ensures failure.Some? ==> failure == Some(Walked(store, entry, []).error)
      ensures failure.None? ==> modules == old(modules) + Walked(store, entry, []).value
    {
      ghost var u := Universe(store, entry);
      ghost var initial := modules;
      ghost var built: seq<Module> := [];
      var queue := [entry];
      var processed := {entry};
      WalkStart(store, entry);
      while queue != []
        invariant modules == initial + built
        invariant Walk(store, entry, u, built, queue, processed)
        invariant Walked(store, entry, []) == Walked(store, entry, built)
        decreases |u - processed| + |queue|
      {
        ghost var measure := |u - processed| + |queue|;
        ghost var pre := [entry] + AllDeps(built);
        WalkHead(store, entry, u, built, queue, processed);
        var filename := queue[0];
        queue := queue[1..];
        var result := BuildModule(filename);
        if result.Err? {
          WalkedStop(store, entry, built);
          assert modules[|initial|..] == built;
          return Some(result.error);
        }
        var m := result.value;
        DepsInUniverse(store, entry, filename);
        modules := modules + [m];
        var deps := m.dependencies;
        for i := 0 to |deps|
          invariant modules == initial + built + [m]
          invariant Scan(pre, deps, i, |built|, u, queue, processed)
          invariant |u - processed| + |queue| == measure - 1
        {
          var dependency := deps[i];
          ScanStep(pre, deps, i, |built|, u, queue, processed);
          if dependency !in processed {
            processed := processed + {dependency};
            queue := queue + [dependency];
          }
        }
        WalkStep(store, entry, u, built, m, queue, processed);
        WalkedStep(store, entry, built, m);
        SnocAssociative(initial, built, m);
        built := built + [m];
      }
      assert modules[|initial|..] == built;
      WalkBound(store, entry, u, built, queue, processed);
      assert Walked(store, entry, built) == Ok(built);
      return None;
    }
  }
}
