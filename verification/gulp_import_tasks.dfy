/** The `importTasks` entry point of the library version: resolve the
    options, then import every eligible file of the directory, passing array
    exports through and binding function exports to `gulp, ...params`. */
module GulpImportTasks {
  import opened Base
  import opened NodePath
  import opened TaskValues
  import opened OptionResolution
  import opened Discovery

  /** `parseOptions`: a string is shorthand for `{dir: string}`; anything
      else, `undefined` included, is merged over the defaults as it is. */
  function ParseOptions<V>(input: OptionsInput<V>): (opts: Options<V>)
    ensures input.NoOptions? ==> opts == Defaults()
    ensures input.DirectoryName? ==> opts == Options(input.name, DefaultExtensions, [])
    ensures input.OptionsObject? ==> opts == ExtendDefaultOptions(input.fields)
  {
    match input
    case NoOptions => ExtendDefaultOptions(PartialOptions(None, None, None))
    case DirectoryName(d) => ExtendDefaultOptions(PartialOptions(Some(d), None, None))
    case OptionsObject(fields) => ExtendDefaultOptions(fields)
  }

  /** `parseTaskObject`: an array is returned as it is; a function is bound
      to the leading arguments `gulp, ...params`; any other export has no
      `bind`, so the `.apply` read throws. */
  function ParseTaskObject<V, F>(task: TaskValue<V, F>, params: seq<V>, gulp: V): (r: Result<TaskValue<V, F>>)
    ensures task.TaskList? ==> r == Success(task)
    ensures task.TaskCallable? ==> r == Success(TaskCallable(task.target, task.bound + [gulp] + params))
    ensures task.OtherValue? ==> r.Failure? && r.error.TypeError?
  {
    if task.TaskList? then Success(task)
    else
      assert task.TaskCallable? ==> task.bound + ([gulp] + params) == task.bound + [gulp] + params;
      Bind(task, [gulp] + params)
  }

  /** Calling the registered function with `args` calls the exported one with
      `gulp`, then the params in order, then `args`. */
  lemma ParseTaskObjectInvoke<V, F>(task: TaskValue<V, F>, params: seq<V>, gulp: V, args: seq<V>)
    requires task.TaskCallable?
    ensures Invoke(ParseTaskObject(task, params, gulp).value, args) == Invoke(task, [gulp] + params + args)
    ensures task.bound == [] ==>
              Invoke(ParseTaskObject(task, params, gulp).value, args)
              == Success(Call(task.target, [gulp] + params + args))
  {
    BindThenInvoke(task, [gulp] + params, args);
    assert [gulp] + params + args == [gulp] + (params + args);
  }

  /** The adaptation step of this version. */
  function LibAdapter<V, F>(params: seq<V>, gulp: V): TaskValue<V, F> -> Result<TaskValue<V, F>>
  {
    t => ParseTaskObject(t, params, gulp)
  }

  /** The directory the resolved options name. */
  function TargetDirectory<V, F>(input: OptionsInput<V>, host: Host<V, F>): Directory
  {
    Directory(host.cwd, ParseOptions(input).dir)
  }

  /** The pass `importTasks` makes over that directory. */
  function LibScan<V, F>(input: OptionsInput<V>, host: Host<V, F>): Scan<V, F>
  {
    var opts := ParseOptions(input);
    ScanFor(host, opts, LibAdapter(opts.params, host.gulp))
  }

  /** `importTasks(options)` as it is evidently meant to read, with
      `parseOptions(options)`. */
  function ImportTasks<V, F>(input: OptionsInput<V>, host: Host<V, F>): (o: Outcome<V, F>)
    ensures host.readDir(TargetDirectory(input, host)).Failure? ==> o.loaded == [] && o.registered == []
    ensures host.readDir(TargetDirectory(input, host)).Success? ==>
              o == ImportEntries(LibScan(input, host), host.readDir(TargetDirectory(input, host)).value)
  {
    var opts := ParseOptions(input);
    ImportDirectory(host, opts, LibAdapter(opts.params, host.gulp))
  }

  /** `importTasks(options)` as written: line 95 reads the undeclared name
      `option`, which throws before anything else happens. */
  function ImportTasksAsWritten<V, F>(input: OptionsInput<V>, host: Host<V, F>): Outcome<V, F>
  {
    Outcome([], [], Some(ReferenceError("option")))
  }

  /** A directory `tasks` holding one function task `build.js`: the intended
      importer registers `build` bound to gulp; the written one registers
      nothing. */
  lemma ImportTasksAsWrittenDiffers()
    ensures var host := Host("/project", (d: Directory) => Success([Entry("build.js", RegularFile)]),
                             (p: FilePath) => TaskCallable(7, []), 0);
            && ImportTasks(NoOptions, host).registered == [Registration("build", TaskCallable(7, [0]))]
            && ImportTasksAsWritten(NoOptions, host).registered == []
  {
    var host: Host<int, int> := Host("/project", (d: Directory) => Success([Entry("build.js", RegularFile)]),
                                     (p: FilePath) => TaskCallable(7, []), 0);
    assert LastDot("build.js") == Some(5) by {
      assert "build.js"[..7] == "build.j" && "build.j"[..6] == "build.";
    }
    assert ExtName("build.js") == ".js";
    var e := Entry("build.js", RegularFile);
    var scan := LibScan(NoOptions, host);
    assert Eligible(e, scan.extensions);
    assert TaskName(PathOf(scan, e)) == "build";
    assert scan.adapt(Exported(scan, e)) == ParseTaskObject(TaskCallable(7, []), [], 0);
    var none: seq<int> := [];
    assert none + [0] + none == [0];
    assert ParseTaskObject(TaskCallable(7, []), [], 0) == Success(TaskCallable(7, [0]));
    assert ImportEntry(scan, e).registered == [Registration("build", TaskCallable(7, [0]))];
    assert [e][1..] == [];
  }

  /** When the directory can be read, every entry can be stat'ed and every
      eligible file exports an array or a function, the import throws nothing and registers exactly the regular files with a
      recognised extension, in listing order, each under its file name minus
      the extension, with `parseTaskObject` applied to its export; those are
      also exactly the modules it loads. */
  lemma ImportTasksRegistersEligibleFiles<V, F>(input: OptionsInput<V>, host: Host<V, F>, entries: seq<Entry>)
    requires host.readDir(TargetDirectory(input, host)) == Success(entries)
    requires forall i :: 0 <= i < |entries| ==>
               && !entries[i].stat.StatFailed?
               && (Eligible(entries[i], ParseOptions(input).extensions) ==>
                     !host.load(FilePath(TargetDirectory(input, host), entries[i].name)).OtherValue?)
    ensures ImportTasks(input, host).error.None?
    ensures var eligible := EligibleEntries(entries, ParseOptions(input).extensions);
            && |ImportTasks(input, host).registered| == |eligible|
            && |ImportTasks(input, host).loaded| == |eligible|
            && (forall k :: 0 <= k < |eligible| ==>
                  ImportTasks(input, host).loaded[k] == FilePath(TargetDirectory(input, host), eligible[k].name))
            && (forall k :: 0 <= k < |eligible| ==>
                  ImportTasks(input, host).registered[k].name + ExtName(eligible[k].name) == eligible[k].name)
            && (forall k :: 0 <= k < |eligible| ==>
                  ParseTaskObject(host.load(FilePath(TargetDirectory(input, host), eligible[k].name)),
                                  ParseOptions(input).params, host.gulp)
                  == Success(ImportTasks(input, host).registered[k].task))
  {
    var scan := LibScan(input, host);
    ImportEntriesMatchesEligibleEntries(scan, entries);
  }

  /** The import throws exactly when the directory cannot be read, some
      entry cannot be stat'ed, or an eligible file exports neither an array
      nor a function. */
  lemma ImportTasksThrowsIff<V, F>(input: OptionsInput<V>, host: Host<V, F>)
    ensures ImportTasks(input, host).error.None?
        <==> && host.readDir(TargetDirectory(input, host)).Success?
             && var entries := host.readDir(TargetDirectory(input, host)).value;
                forall i :: 0 <= i < |entries| ==>
                  && !entries[i].stat.StatFailed?
                  && (Eligible(entries[i], ParseOptions(input).extensions) ==>
                        !host.load(FilePath(TargetDirectory(input, host), entries[i].name)).OtherValue?)
  {
    if host.readDir(TargetDirectory(input, host)).Success? {
      NoErrorIffEveryEntrySucceeds(LibScan(input, host), host.readDir(TargetDirectory(input, host)).value);
    }
  }

  /** Every registration, whatever else happens, comes from an eligible
      entry whose export is an array or a function: an array is registered
      as the identical array, and a function as a function that, called with
      `args`, calls the export with `gulp`, the params and `args`. */
  lemma ImportTasksRegistrationShapes<V, F>(input: OptionsInput<V>, host: Host<V, F>, args: seq<V>)
    requires host.readDir(TargetDirectory(input, host)).Success?
    ensures var entries := host.readDir(TargetDirectory(input, host)).value;
            forall r :: r in ImportTasks(input, host).registered ==>
              exists i :: 0 <= i < |entries| && Eligible(entries[i], ParseOptions(input).extensions)
                && r.name + ExtName(entries[i].name) == entries[i].name
                && var exported := host.load(FilePath(TargetDirectory(input, host), entries[i].name));
                   && !exported.OtherValue?
                   && (exported.TaskList? ==> r.task == exported)
                   && (exported.TaskCallable? ==>
                         Invoke(r.task, args) == Invoke(exported, [host.gulp] + ParseOptions(input).params + args))
  {
    var entries := host.readDir(TargetDirectory(input, host)).value;
    var scan := LibScan(input, host);
    EverythingComesFromEligibleEntries(scan, entries);
    forall r | r in ImportTasks(input, host).registered
      ensures exists i :: 0 <= i < |entries| && Eligible(entries[i], ParseOptions(input).extensions)
                && r.name + ExtName(entries[i].name) == entries[i].name
                && var exported := host.load(FilePath(TargetDirectory(input, host), entries[i].name));
                   && !exported.OtherValue?
                   && (exported.TaskList? ==> r.task == exported)
                   && (exported.TaskCallable? ==>
                         Invoke(r.task, args) == Invoke(exported, [host.gulp] + ParseOptions(input).params + args))
    {
      var i :| 0 <= i < |entries| && Eligible(entries[i], scan.extensions) && RegisteredAs(scan, r, entries[i]);
      var exported := Exported(scan, entries[i]);
      assert Success(r.task) == ParseTaskObject(exported, ParseOptions(input).params, host.gulp);
      if exported.TaskCallable? {
        ParseTaskObjectInvoke(exported, ParseOptions(input).params, host.gulp, args);
      }
    }
  }

  /** The code does not insist on a non-empty extension list: with none,
      nothing is loaded or registered. */
  lemma NoExtensionsImportNothing<V, F>(input: OptionsInput<V>, host: Host<V, F>)
    requires ParseOptions(input).extensions == []
    ensures ImportTasks(input, host).loaded == []
    ensures ImportTasks(input, host).registered == []
  {
    if host.readDir(TargetDirectory(input, host)).Success? {
      var entries := host.readDir(TargetDirectory(input, host)).value;
      NothingEligibleNothingImported(LibScan(input, host), entries);
    }
  }
}
