/** The action of bin/mini-bundler.js: the configuration file, the
    command-line options laid over it, the checks, and the compiler run.
    The file system is a map from absolute path to what `require` of the
    configuration file gives: its exported object, or the message of the
    error loading it threw. */
module Cli {
  import opened Wrappers
  import opened PosixPath
  import Compiler

  /** The options commander hands the action; `--config` and
      `--filename` always carry a value, their defaults if not given. */
  datatype Options = Options(config: string, entry: Option<string>, output: Option<string>, filename: string)

  /** The fields of a configuration file's exported object that the
      bundler reads. */
  datatype FileConfig = FileConfig(entry: Option<string>, output: Option<Compiler.Output>)

  type ConfigFiles = map<string, Result<FileConfig, string>>

  const DefaultConfig := "bundler.config.js"
  const DefaultFilename := "bundle.js"

  const EntryRequired := "Entry file is required. Please specify it in config file or use --entry option."

  /** The output used when no `output` is configured. */
  const DefaultOutput := Compiler.Output(Some("./dist"), Some("bundle.js"))

  function ConfigNotFound(configPath: string): string {
    "Config file not found: " + configPath
  }

  /** JavaScript truthiness of an optional string: present and non-empty. */
  predicate Truthy(s: Option<string>) {
    s.Some? && s.value != ""
  }

  // ---------------------------------------------------------------------
  // The merge as the action writes it

  /** The object the options are laid over: the configuration file's, or
      the empty object when the default file is missing. */
  function BaseConfig(cwd: string, files: ConfigFiles, options: Options): Result<FileConfig, string>
    requires IsAbsolute(cwd)
  {
    var configPath := Resolve([cwd, options.config]);
    if configPath in files then files[configPath]
    else if options.config != DefaultConfig then Err(ConfigNotFound(configPath))
    else Ok(FileConfig(None, None))
  }

  /** `config.output` after the output block and the default, from the
      file's `output`. The block runs when `--output` or `--filename` is
      truthy. */
  function MergedOutput(file: Option<Compiler.Output>, options: Options): Compiler.Output {
    if Truthy(options.output) || options.filename != "" then
      var o := if file.Some? then file.value else Compiler.Output(None, None);
      Compiler.Output(
        if Truthy(options.output) then options.output else o.path,
        if options.filename != DefaultFilename then Some(options.filename) else o.filename)
    else if file.Some? then file.value
    else DefaultOutput
  }

  /** The configuration the action hands the compiler, or the message of
      the error it throws first. */
  function Merge(cwd: string, files: ConfigFiles, options: Options): Result<Compiler.Config, string>
    requires IsAbsolute(cwd)
  {
    match BaseConfig(cwd, files, options)
    case Err(e) => Err(e)
    case Ok(base) => MergeOnto(base, options)
  }

  /** The options laid over the base object, and the entry check. */
  function MergeOnto(base: FileConfig, options: Options): Result<Compiler.Config, string> {
    var entry := if Truthy(options.entry) then options.entry else base.entry;
    if !Truthy(entry) then Err(EntryRequired)
    else Ok(Compiler.Config(entry.value, MergedOutput(base.output, options)))
  }

  /** The action up to `new Compiler(config)`, as its statements run. */
  method LoadConfig(cwd: string, files: ConfigFiles, options: Options) returns (r: Result<Compiler.Config, string>)
    requires IsAbsolute(cwd)
    ensures r == Merge(cwd, files, options)
  {
    var config := FileConfig(None, None);
    var configPath := Resolve([cwd, options.config]);
    if configPath in files {
      var loaded := files[configPath];
      if loaded.Err? {
        return Err(loaded.error);
      }
      config := loaded.value;
    } else if options.config != DefaultConfig {
      return Err(ConfigNotFound(configPath));
    }
    if Truthy(options.entry) {
      config := config.(entry := options.entry);
    }
    if Truthy(options.output) || options.filename != "" {
      var output := if config.output.Some? then config.output.value else Compiler.Output(None, None);
      if Truthy(options.output) {
        output := output.(path := options.output);
      }
      if options.filename != DefaultFilename {
        output := output.(filename := Some(options.filename));
      }
      config := config.(output := Some(output));
    }
    if !Truthy(config.entry) {
      return Err(EntryRequired);
    }
    if config.output.None? {
      config := config.(output := Some(DefaultOutput));
    }
    return Ok(Compiler.Config(config.entry.value, config.output.value));
  }

  // ---------------------------------------------------------------------
  // Properties of the merge

  /** An existing configuration file is the base; a missing one is an
      error unless it is the default file, whose absence gives the empty
      base. */
  lemma ConfigFileRules(cwd: string, files: ConfigFiles, options: Options)
    requires IsAbsolute(cwd)
    ensures var configPath := Resolve([cwd, options.config]);
      && (configPath in files ==> BaseConfig(cwd, files, options) == files[configPath])
      && (configPath !in files && options.config != "bundler.config.js" ==>
            Merge(cwd, files, options) == Err("Config file not found: " + configPath))
      && (configPath !in files && options.config == "bundler.config.js" ==>
            BaseConfig(cwd, files, options) == Ok(FileConfig(None, None)))
      && (BaseConfig(cwd, files, options).Err? ==> Merge(cwd, files, options) == Err(BaseConfig(cwd, files, options).error))
  {
  }

  /** A truthy `--entry` wins over the file's; without either the merge
      fails with the entry message. */
  lemma EntryRules(base: FileConfig, options: Options)
    ensures && (MergeOnto(base, options).Ok? <==> Truthy(options.entry) || Truthy(base.entry))
      && (MergeOnto(base, options).Err? ==>
            MergeOnto(base, options).error == "Entry file is required. Please specify it in config file or use --entry option.")
      && (Truthy(options.entry) ==> MergeOnto(base, options).value.entry == options.entry.value)
      && (!Truthy(options.entry) && Truthy(base.entry) ==> MergeOnto(base, options).value.entry == base.entry.value)
      && (MergeOnto(base, options).Ok? ==> MergeOnto(base, options).value.output == MergedOutput(base.output, options))
  {
  }

  /** Precedence in the merged configuration: a truthy `--output` wins
      over the file's directory, and a `--filename` other than
      "bundle.js" wins over the file's name whenever the output block
      runs; a field the command line does not set is the file's. */
  lemma OutputRules(base: FileConfig, options: Options)
    requires MergeOnto(base, options).Ok?
    ensures var o := MergeOnto(base, options).value.output;
      && (Truthy(options.output) ==> o.path == options.output)
      && (!Truthy(options.output) && base.output.Some? ==> o.path == base.output.value.path)
      && (options.filename != "bundle.js" && (options.filename != "" || Truthy(options.output)) ==>
            o.filename == Some(options.filename))
      && (options.filename == "bundle.js" && base.output.Some? ==> o.filename == base.output.value.filename)
  {
  }

  /** Without an output in the file, the default output is used exactly
      when neither `--output` nor a non-empty `--filename` is given; with
      the default `--filename` and no `--output` the output has neither
      field. */
  lemma DefaultOutputRule(base: FileConfig, options: Options)
    requires MergeOnto(base, options).Ok? && base.output.None?
    ensures MergeOnto(base, options).value.output == Compiler.Output(Some("./dist"), Some("bundle.js")) <==>
      !Truthy(options.output) && options.filename == ""
    ensures options.filename == "bundle.js" && !Truthy(options.output) ==>
      MergeOnto(base, options).value.output == Compiler.Output(None, None)
  {
  }

  /** As written, the default output never applies with the default
      `--filename`: with no configuration file and only `--entry`, the
      output is the empty object and `path.resolve` in `emitFiles` throws
      for the missing file name. */
  lemma DefaultOutputMissed(cwd: string, entry: string)
    requires IsAbsolute(cwd) && entry != ""
    ensures var options := Options(DefaultConfig, Some(entry), None, DefaultFilename);
      && Merge(cwd, map[], options) == Ok(Compiler.Config(entry, Compiler.Output(None, None)))
      && Compiler.OutputPath(cwd, Merge(cwd, map[], options).value.output) == Err(Compiler.ArgumentError("2"))
  {
    var options := Options(DefaultConfig, Some(entry), None, DefaultFilename);
    assert BaseConfig(cwd, map[], options) == Ok(FileConfig(None, None));
    assert MergedOutput(None, options) == Compiler.Output(None, None);
  }

  // ---------------------------------------------------------------------
  // The merge with the output default applied field by field

  /** The evidently intended output: anything still missing after the
      merge takes its part of the default. */
  function WithDefaults(o: Compiler.Output): (d: Compiler.Output)
    ensures d.path.Some? && d.filename.Some?
    ensures o.path.Some? ==> d.path == o.path
    ensures o.filename.Some? ==> d.filename == o.filename
    ensures o.path.None? ==> d.path == Some("./dist")
    ensures o.filename.None? ==> d.filename == Some("bundle.js")
  {
    Compiler.Output(
      if o.path.Some? then o.path else DefaultOutput.path,
      if o.filename.Some? then o.filename else DefaultOutput.filename)
  }

  /** `LoadConfig` with the output default applied to each missing field. */
  method Configure(cwd: string, files: ConfigFiles, options: Options) returns (r: Result<Compiler.Config, string>)
    requires IsAbsolute(cwd)
    ensures Merge(cwd, files, options).Err? ==> r == Merge(cwd, files, options)
    ensures Merge(cwd, files, options).Ok? ==>
      r == Ok(Merge(cwd, files, options).value.(output := WithDefaults(Merge(cwd, files, options).value.output)))
  {
    r := LoadConfig(cwd, files, options);
    if r.Ok? {
      r := Ok(r.value.(output := WithDefaults(r.value.output)));
    }
  }

  /** With the defaults applied, the output path of every merged output
      can be computed, and it is the one the action as written uses
      whenever that one has both fields. */
  lemma ConfiguredOutputResolves(cwd: string, written: Compiler.Output)
    requires IsAbsolute(cwd)
    ensures Compiler.OutputPath(cwd, WithDefaults(written)).Ok?
    ensures written.path.Some? && written.filename.Some? ==>
      Compiler.OutputPath(cwd, WithDefaults(written)) == Compiler.OutputPath(cwd, written)
  {
    Compiler.OutputPathFacts(cwd, WithDefaults(written));
  }

  // ---------------------------------------------------------------------
  // The action

  /** The action callback: configure, then `new Compiler(config)` and
      `compiler.run()`. An error from either is the action's result; with
      a configuration the result is what the compiler's run gives for it. */
  method Action(cwd: string, files: ConfigFiles, store: Compiler.Store, options: Options)
    returns (r: Result<Compiler.Artifact, string>)
    requires IsAbsolute(cwd)
    ensures Merge(cwd, files, options).Err? ==> r == Err(Merge(cwd, files, options).error)
    ensures Merge(cwd, files, options).Ok? ==>
      r == Compiler.Ran(cwd, store, Merge(cwd, files, options).value.(output := WithDefaults(Merge(cwd, files, options).value.output)))
    ensures r.Ok? ==>
      && Merge(cwd, files, options).Ok?
      && Compiler.OutputPath(cwd, WithDefaults(Merge(cwd, files, options).value.output)) == Ok(r.value.path)
  {
    var config := Configure(cwd, files, options);
    if config.Err? {
      return Err(config.error);
    }
    var compiler := new Compiler.Compiler(cwd, store, config.value);
    r := compiler.Run();
  }
}
