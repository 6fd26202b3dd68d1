/** The `loadTasks` entry point of `index.js`. It resolves options and walks
    the directory like the library version, but its array test is inverted:
    a function export (or any other non-array) is registered as it is, with
    nothing bound, and an array export reaches `task.bind`, which arrays do
    not have, so it throws. */
module IndexLoadTasks {
  import opened Base
  import opened NodePath
  import opened TaskValues
  import opened OptionResolution
  import opened Discovery
  import GulpImportTasks

  /** `opts = options`, replaced by `{dir: options}` when it is a string. */
  function NormalizeInput<V>(input: OptionsInput<V>): PartialOptions<V>
  {
    match input
    case NoOptions => PartialOptions(None, None, None)
    case DirectoryName(d) => PartialOptions(Some(d), None, None)
    case OptionsObject(fields) => fields
  }

  /** `extendDefaultOptions(opts)` after the string shorthand is expanded. */
  function ResolveOptions<V>(input: OptionsInput<V>): (opts: Options<V>)
    ensures input.NoOptions? ==> opts == Defaults()
    ensures input.DirectoryName? ==>
              opts.dir == input.name && opts.extensions == DefaultExtensions && opts.params == []
  {
    ExtendDefaultOptions(NormalizeInput(input))
  }

  /** Both versions resolve every input to the same options. */
  lemma ResolveOptionsAgreesWithLib<V>(input: OptionsInput<V>)
    ensures ResolveOptions(input) == GulpImportTasks.ParseOptions(input)
  {
  }

  /** The inverted branch: a non-array is used as it is, an array is bound. */
  function AdaptInverted<V, F>(task: TaskValue<V, F>, params: seq<V>, gulp: V): (r: Result<TaskValue<V, F>>)
    ensures !task.TaskList? ==> r == Success(task)
    ensures task.TaskList? ==> r.Failure? && r.error.TypeError?
  {
    if !task.TaskList? then Success(task) else Bind(task, [gulp] + params)
  }

  /** On no export at all does the inverted branch give what the library
      version's `parseTaskObject` gives: a function loses its `gulp` binding,
      an array throws instead of passing through, and any other value is
      registered where the library version throws. The two never both throw. */
  lemma AdaptInvertedNeverMatchesLib<V, F>(task: TaskValue<V, F>, params: seq<V>, gulp: V)
    ensures AdaptInverted(task, params, gulp) != GulpImportTasks.ParseTaskObject(task, params, gulp)
    ensures AdaptInverted(task, params, gulp).Success? || GulpImportTasks.ParseTaskObject(task, params, gulp).Success?
  {
  }

  function IndexAdapter<V, F>(params: seq<V>, gulp: V): TaskValue<V, F> -> Result<TaskValue<V, F>>
  {
    t => AdaptInverted(t, params, gulp)
  }

  function IndexScan<V, F>(input: OptionsInput<V>, host: Host<V, F>): Scan<V, F>
  {
    var opts := ResolveOptions(input);
    ScanFor(host, opts, IndexAdapter(opts.params, host.gulp))
  }

  /** `loadTasks(options)` as written. */
  function LoadTasks<V, F>(input: OptionsInput<V>, host: Host<V, F>): (o: Outcome<V, F>)
    ensures host.readDir(IndexScan(input, host).dir).Failure? ==> o.loaded == [] && o.registered == []
    ensures host.readDir(IndexScan(input, host).dir).Success? ==>
              o == ImportEntries(IndexScan(input, host), host.readDir(IndexScan(input, host).dir).value)
  {
    var opts := ResolveOptions(input);
    ImportDirectory(host, opts, IndexAdapter(opts.params, host.gulp))
  }

  /** Everything `loadTasks` registers is a non-array export of an eligible
      entry, registered unchanged under its file name minus the extension:
      no `gulp` or params are bound. */
  lemma LoadTasksRegistersExportsUnbound<V, F>(input: OptionsInput<V>, host: Host<V, F>)
    requires host.readDir(IndexScan(input, host).dir).Success?
    ensures var entries := host.readDir(IndexScan(input, host).dir).value;
            forall r :: r in LoadTasks(input, host).registered ==>
              && !r.task.TaskList?
              && exists i :: 0 <= i < |entries| && Eligible(entries[i], ResolveOptions(input).extensions)
                   && r.name + ExtName(entries[i].name) == entries[i].name
                   && r.task == host.load(FilePath(IndexScan(input, host).dir, entries[i].name))
  {
    var scan := IndexScan(input, host);
    var entries := host.readDir(scan.dir).value;
    EverythingComesFromEligibleEntries(scan, entries);
    forall r | r in LoadTasks(input, host).registered
      ensures && !r.task.TaskList?
              && exists i :: 0 <= i < |entries| && Eligible(entries[i], ResolveOptions(input).extensions)
                   && r.name + ExtName(entries[i].name) == entries[i].name
                   && r.task == host.load(FilePath(IndexScan(input, host).dir, entries[i].name))
    {
      var i :| 0 <= i < |entries| && Eligible(entries[i], scan.extensions) && RegisteredAs(scan, r, entries[i]);
      assert AdaptInverted(Exported(scan, entries[i]), ResolveOptions(input).params, host.gulp) == Success(r.task);
    }
  }

  /** When no eligible entry exports an array and nothing fails on the
      filesystem, `loadTasks` calls `gulp.task` once per eligible entry,
      in listing order, with the export itself. */
  lemma LoadTasksRegistersEligibleFiles<V, F>(input: OptionsInput<V>, host: Host<V, F>, entries: seq<Entry>)
    requires host.readDir(IndexScan(input, host).dir) == Success(entries)
    requires forall i :: 0 <= i < |entries| ==>
               && !entries[i].stat.StatFailed?
               && (Eligible(entries[i], ResolveOptions(input).extensions) ==>
                     !host.load(FilePath(IndexScan(input, host).dir, entries[i].name)).TaskList?)
    ensures LoadTasks(input, host).error.None?
    ensures var eligible := EligibleEntries(entries, ResolveOptions(input).extensions);
            && |LoadTasks(input, host).registered| == |eligible|
            && (forall k :: 0 <= k < |eligible| ==>
                  LoadTasks(input, host).registered[k]
                  == Registration(TaskName(FilePath(IndexScan(input, host).dir, eligible[k].name)),
                                  host.load(FilePath(IndexScan(input, host).dir, eligible[k].name))))
  {
    var scan := IndexScan(input, host);
    ImportEntriesMatchesEligibleEntries(scan, entries);
  }

  /** `loadTasks` throws exactly when the directory cannot be read, an entry
      cannot be stat'ed, or an eligible entry exports an array. */
  lemma LoadTasksThrowsIff<V, F>(input: OptionsInput<V>, host: Host<V, F>)
    ensures LoadTasks(input, host).error.None?
        <==> && host.readDir(IndexScan(input, host).dir).Success?
             && var entries := host.readDir(IndexScan(input, host).dir).value;
                forall i :: 0 <= i < |entries| ==>
                  && !entries[i].stat.StatFailed?
                  && (Eligible(entries[i], ResolveOptions(input).extensions) ==>
                        !host.load(FilePath(IndexScan(input, host).dir, entries[i].name)).TaskList?)
  {
    var scan := IndexScan(input, host);
    if host.readDir(scan.dir).Success? {
      NoErrorIffEveryEntrySucceeds(scan, host.readDir(scan.dir).value);
    }
  }

  /** The two versions leave the same outcome exactly when the library
      version loads no module at all: as soon as one task file is found,
      they part ways. */
  lemma LoadTasksAgreesWithLibIffNothingLoaded<V, F>(input: OptionsInput<V>, host: Host<V, F>)
    ensures LoadTasks(input, host) == GulpImportTasks.ImportTasks(input, host)
        <==> GulpImportTasks.ImportTasks(input, host).loaded == []
  {
    ResolveOptionsAgreesWithLib(input);
    var lib := GulpImportTasks.LibScan(input, host);
    var opts := ResolveOptions(input);
    assert IndexScan(input, host) == lib.(adapt := IndexAdapter(opts.params, host.gulp));
    if host.readDir(lib.dir).Success? {
      forall t | true
        ensures (lib.adapt(t).Success? || IndexAdapter(opts.params, host.gulp)(t).Success?)
             && lib.adapt(t) != IndexAdapter(opts.params, host.gulp)(t)
      {
        AdaptInvertedNeverMatchesLib(t, opts.params, host.gulp);
      }
      PassesAgreeIffNothingLoaded(lib, IndexAdapter(opts.params, host.gulp), host.readDir(lib.dir).value);
    }
  }
}
