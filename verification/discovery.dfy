/** The directory pass both importers share: list the resolved directory,
    and for each entry in listing order stat it, skip it unless it is a
    regular file with a recognised extension, otherwise load it, turn the
    export into a task object and register it under its derived name. The
    two versions differ only in that last adaptation step, which is a
    parameter here. */
module Discovery {
  import opened Base
  import opened NodePath
  import opened TaskValues
  import opened OptionResolution

  /** What `fs.statSync` reports for an entry, or the error it throws. */
  datatype Stat = RegularFile | NotAFile | StatFailed(error: JsError)

  /** One name returned by `fs.readdirSync`, with its `fs.statSync` result. */
  datatype Entry = Entry(name: string, stat: Stat)

  /** One `gulp.task(name, task)` call. */
  datatype Registration<V, F> = Registration(name: string, task: TaskValue<V, F>)

  /** What one run leaves behind: the modules it loaded (loading runs their
      side effects), the registrations it made, in order, and the exception
      that ended it, if any. Registrations made before an exception stay. */
  datatype Outcome<V, F> = Outcome(
    loaded: seq<FilePath>,
    registered: seq<Registration<V, F>>,
    error: Option<JsError>)

  /** The outside world the importers touch: the working directory,
      `fs.readdirSync` with `fs.statSync`, `require`, and the gulp instance
      that is bound as the first argument of function tasks. */
  datatype Host<V, F> = Host(
    cwd: string,
    readDir: Directory -> Result<seq<Entry>>,
    load: FilePath -> TaskValue<V, F>,
    gulp: V)

  /** One pass over one directory. `adapt` turns a loaded export into the
      object handed to `gulp.task`, or throws. */
  datatype Scan<!V, !F> = Scan(
    dir: Directory,
    extensions: seq<string>,
    load: FilePath -> TaskValue<V, F>,
    adapt: TaskValue<V, F> -> Result<TaskValue<V, F>>)

  /** `stat.isFile() && extensions.includes(path.extname(filename))` */
  predicate Eligible(e: Entry, extensions: seq<string>)
  {
    e.stat.RegularFile? && ExtName(e.name) in extensions
  }

  function PathOf<V, F>(scan: Scan<V, F>, e: Entry): FilePath
  {
    FilePath(scan.dir, e.name)
  }

  function Exported<V, F>(scan: Scan<V, F>, e: Entry): TaskValue<V, F>
  {
    scan.load(PathOf(scan, e))
  }

  /** The entry is processed without an exception. */
  predicate EntrySucceeds<V, F>(scan: Scan<V, F>, e: Entry)
  {
    !e.stat.StatFailed? && (Eligible(e, scan.extensions) ==> scan.adapt(Exported(scan, e)).Success?)
  }

  /** `r` is the registration entry `e` gives rise to. */
  ghost predicate RegisteredAs<V, F>(scan: Scan<V, F>, r: Registration<V, F>, e: Entry)
  {
    r.name == TaskName(PathOf(scan, e)) && scan.adapt(Exported(scan, e)) == Success(r.task)
  }

  function Done<V, F>(): Outcome<V, F>
  {
    Outcome([], [], None)
  }

  /** Run `first`, then, unless it threw, `next`. */
  function Then<V, F>(first: Outcome<V, F>, next: Outcome<V, F>): Outcome<V, F>
  {
    if first.error.Some? then first
    else Outcome(first.loaded + next.loaded, first.registered + next.registered, next.error)
  }

  /** The body of the `forEach` callback for one entry. */
  function ImportEntry<V, F>(scan: Scan<V, F>, e: Entry): (o: Outcome<V, F>)
    ensures e.stat.StatFailed? ==> o == Outcome([], [], Some(e.stat.error))
    // a module is loaded exactly when its entry is eligible
    ensures !e.stat.StatFailed? ==>
              o.loaded == (if Eligible(e, scan.extensions) then [PathOf(scan, e)] else [])
    ensures o.error.None? <==> EntrySucceeds(scan, e)
    // one registration exactly for an eligible entry that adapts without throwing
    ensures |o.registered| == (if Eligible(e, scan.extensions) && EntrySucceeds(scan, e) then 1 else 0)
    ensures forall r :: r in o.registered ==> RegisteredAs(scan, r, e)
  {
    match e.stat
    case StatFailed(err) => Outcome([], [], Some(err))
    case _ =>
      if !Eligible(e, scan.extensions) then Done()
      else
        var path := PathOf(scan, e);
        match scan.adapt(scan.load(path))
        case Failure(err) => Outcome([path], [], Some(err))
        case Success(task) => Outcome([path], [Registration(TaskName(path), task)], None)
  }

  /** `entries.forEach(...)`: the entries in listing order, stopping at the
      first exception. */
  function ImportEntries<V, F>(scan: Scan<V, F>, entries: seq<Entry>): (o: Outcome<V, F>)
    ensures |o.registered| <= |o.loaded| <= |entries|
    decreases |entries|
  {
    if |entries| == 0 then Done()
    else Then(ImportEntry(scan, entries[0]), ImportEntries(scan, entries[1..]))
  }

  /** The scan of the directory the options name. */
  function ScanFor<V, F>(host: Host<V, F>, opts: Options<V>,
                         adapt: TaskValue<V, F> -> Result<TaskValue<V, F>>): Scan<V, F>
  {
    Scan(Directory(host.cwd, opts.dir), opts.extensions, host.load, adapt)
  }

  /** `fs.readdirSync(dir).forEach(...)`: a directory that cannot be read
      throws before anything is loaded or registered. */
  function ImportDirectory<V, F>(host: Host<V, F>, opts: Options<V>,
                                 adapt: TaskValue<V, F> -> Result<TaskValue<V, F>>): (o: Outcome<V, F>)
    ensures host.readDir(Directory(host.cwd, opts.dir)).Failure? ==>
              o == Outcome([], [], Some(host.readDir(Directory(host.cwd, opts.dir)).error))
    ensures host.readDir(Directory(host.cwd, opts.dir)).Success? ==>
              |o.loaded| <= |host.readDir(Directory(host.cwd, opts.dir)).value|
  {
    var scan := ScanFor(host, opts, adapt);
    match host.readDir(scan.dir)
    case Failure(err) => Outcome([], [], Some(err))
    case Success(entries) => ImportEntries(scan, entries)
  }

  /** The eligible entries, in listing order: the reference the pass is
      measured against. */
  function EligibleEntries(entries: seq<Entry>, extensions: seq<string>): (r: seq<Entry>)
    ensures forall e :: e in r <==> e in entries && Eligible(e, extensions)
    ensures |r| <= |entries|
    decreases |entries|
  {
    if |entries| == 0 then []
    else (if Eligible(entries[0], extensions) then [entries[0]] else [])
         + EligibleEntries(entries[1..], extensions)
  }

  /** Filtering keeps listing order: the eligible entries of `a + b` are
      those of `a` followed by those of `b`. */
  lemma {:induction false} EligibleEntriesAppend(a: seq<Entry>, b: seq<Entry>, extensions: seq<string>)
    ensures EligibleEntries(a + b, extensions) == EligibleEntries(a, extensions) + EligibleEntries(b, extensions)
    decreases |a|
  {
    if |a| == 0 {
      assert a + b == b;
    } else {
      assert (a + b)[0] == a[0];
      assert (a + b)[1..] == a[1..] + b;
      EligibleEntriesAppend(a[1..], b, extensions);
      var head := if Eligible(a[0], extensions) then [a[0]] else [];
      assert head + (EligibleEntries(a[1..], extensions) + EligibleEntries(b, extensions))
          == (head + EligibleEntries(a[1..], extensions)) + EligibleEntries(b, extensions);
    }
  }

  lemma ThenAssociative<V, F>(x: Outcome<V, F>, y: Outcome<V, F>, z: Outcome<V, F>)
    ensures Then(Then(x, y), z) == Then(x, Then(y, z))
  {
  }

  /** The pass is sequential: importing `a + b` is importing `a`, then, if
      that did not throw, importing `b`. */
  lemma {:induction false} ImportEntriesAppend<V, F>(scan: Scan<V, F>, a: seq<Entry>, b: seq<Entry>)
    ensures ImportEntries(scan, a + b) == Then(ImportEntries(scan, a), ImportEntries(scan, b))
    decreases |a|
  {
    if |a| == 0 {
      assert a + b == b;
      var o := ImportEntries(scan, b);
      assert [] + o.loaded == o.loaded && [] + o.registered == o.registered;
    } else {
      assert (a + b)[0] == a[0];
      assert (a + b)[1..] == a[1..] + b;
      ImportEntriesAppend(scan, a[1..], b);
      ThenAssociative(ImportEntry(scan, a[0]), ImportEntries(scan, a[1..]), ImportEntries(scan, b));
    }
  }

  /** An exception leaves the earlier registrations in place and stops the
      pass: nothing after the failing entry is loaded or registered. */
  lemma AbortKeepsEarlierRegistrations<V, F>(scan: Scan<V, F>, before: seq<Entry>, e: Entry, after: seq<Entry>)
    requires ImportEntries(scan, before).error.None?
    requires !EntrySucceeds(scan, e)
    ensures ImportEntries(scan, before + [e] + after).registered == ImportEntries(scan, before).registered
    ensures ImportEntries(scan, before + [e] + after).loaded
         == ImportEntries(scan, before).loaded + ImportEntry(scan, e).loaded
    ensures ImportEntries(scan, before + [e] + after).error == ImportEntry(scan, e).error
  {
    ImportEntriesAppend(scan, before + [e], after);
    ImportEntriesAppend(scan, before, [e]);
    assert [e][1..] == [];
    var x := ImportEntry(scan, e);
    assert ImportEntries(scan, [e]) == Then(x, Done());
    assert ImportEntries(scan, [e]) == x;
  }

  /** The pass finishes without an exception exactly when every entry is
      processed without one. */
  lemma {:induction false} NoErrorIffEveryEntrySucceeds<V, F>(scan: Scan<V, F>, entries: seq<Entry>)
    ensures ImportEntries(scan, entries).error.None?
        <==> forall i :: 0 <= i < |entries| ==> EntrySucceeds(scan, entries[i])
    decreases |entries|
  {
    if |entries| > 0 {
      NoErrorIffEveryEntrySucceeds(scan, entries[1..]);
      assert forall i :: 1 <= i < |entries| ==> entries[i] == entries[1..][i - 1];
    }
  }

  /** The loads and registrations of a pass line up with `eligible`. */
  ghost predicate LinesUpWith<V, F>(scan: Scan<V, F>, o: Outcome<V, F>, eligible: seq<Entry>)
  {
    && |o.loaded| == |eligible|
    && |o.registered| == |eligible|
    && (forall k :: 0 <= k < |eligible| ==> o.loaded[k] == PathOf(scan, eligible[k]))
    && (forall k :: 0 <= k < |eligible| ==> RegisteredAs(scan, o.registered[k], eligible[k]))
  }

  /** Putting one entry's outcome in front of a lined-up rest lines up with
      that entry in front of the rest's entries. */
  lemma LinesUpCons<V, F>(scan: Scan<V, F>, x: Outcome<V, F>, o: Outcome<V, F>,
                          head: seq<Entry>, eligible: seq<Entry>)
    requires |head| <= 1
    requires |x.loaded| == |head| && |x.registered| == |head|
    requires forall k :: 0 <= k < |head| ==> x.loaded[k] == PathOf(scan, head[k])
    requires forall k :: 0 <= k < |head| ==> RegisteredAs(scan, x.registered[k], head[k])
    requires LinesUpWith(scan, o, eligible)
    ensures LinesUpWith(scan, Outcome(x.loaded + o.loaded, x.registered + o.registered, o.error), head + eligible)
  {
    var all := head + eligible;
    var r := Outcome(x.loaded + o.loaded, x.registered + o.registered, o.error);
    forall k | 0 <= k < |all|
      ensures r.loaded[k] == PathOf(scan, all[k])
      ensures RegisteredAs(scan, r.registered[k], all[k])
    {
      if k < |head| {
        assert all[k] == head[k] && r.loaded[k] == x.loaded[k] && r.registered[k] == x.registered[k];
      } else {
        assert all[k] == eligible[k - |head|];
        assert r.loaded[k] == o.loaded[k - |head|] && r.registered[k] == o.registered[k - |head|];
      }
    }
  }

  /** Without exceptions the pass loads and registers exactly the eligible
      entries, one each, in listing order, each under its derived name. */
  lemma {:induction false} ImportEntriesMatchesEligibleEntries<V, F>(scan: Scan<V, F>, entries: seq<Entry>)
    requires forall i :: 0 <= i < |entries| ==> EntrySucceeds(scan, entries[i])
    ensures ImportEntries(scan, entries).error.None?
    ensures |ImportEntries(scan, entries).loaded| == |EligibleEntries(entries, scan.extensions)|
    ensures |ImportEntries(scan, entries).registered| == |EligibleEntries(entries, scan.extensions)|
    ensures forall k :: 0 <= k < |EligibleEntries(entries, scan.extensions)| ==>
              ImportEntries(scan, entries).loaded[k] == PathOf(scan, EligibleEntries(entries, scan.extensions)[k])
    ensures forall k :: 0 <= k < |EligibleEntries(entries, scan.extensions)| ==>
              RegisteredAs(scan, ImportEntries(scan, entries).registered[k],
                           EligibleEntries(entries, scan.extensions)[k])
  {
    MatchesEligibleEntries(scan, entries);
  }

  lemma {:induction false} MatchesEligibleEntries<V, F>(scan: Scan<V, F>, entries: seq<Entry>)
    requires forall i :: 0 <= i < |entries| ==> EntrySucceeds(scan, entries[i])
    ensures ImportEntries(scan, entries).error.None?
    ensures LinesUpWith(scan, ImportEntries(scan, entries), EligibleEntries(entries, scan.extensions))
    decreases |entries|
  {
    if |entries| > 0 {
      var rest := entries[1..];
      assert forall i :: 0 <= i < |rest| ==> rest[i] == entries[i + 1];
      MatchesEligibleEntries(scan, rest);
      var e := entries[0];
      assert EntrySucceeds(scan, e);
      var x := ImportEntry(scan, e);
      var o := ImportEntries(scan, rest);
      var head := if Eligible(e, scan.extensions) then [e] else [];
      assert EligibleEntries(entries, scan.extensions) == head + EligibleEntries(rest, scan.extensions);
      if Eligible(e, scan.extensions) {
        assert RegisteredAs(scan, x.registered[0], e);
      }
      assert ImportEntries(scan, entries) == Outcome(x.loaded + o.loaded, x.registered + o.registered, o.error);
      LinesUpCons(scan, x, o, head, EligibleEntries(rest, scan.extensions));
    }
  }

  /** Whatever happens, every loaded module and every registration comes
      from an eligible entry: an ineligible entry is never loaded. */
  lemma {:induction false} EverythingComesFromEligibleEntries<V, F>(scan: Scan<V, F>, entries: seq<Entry>)
    ensures forall p :: p in ImportEntries(scan, entries).loaded ==>
              exists i :: 0 <= i < |entries| && Eligible(entries[i], scan.extensions) && p == PathOf(scan, entries[i])
    ensures forall r :: r in ImportEntries(scan, entries).registered ==>
              exists i :: 0 <= i < |entries| && Eligible(entries[i], scan.extensions) && RegisteredAs(scan, r, entries[i])
    decreases |entries|
  {
    if |entries| > 0 {
      var rest := entries[1..];
      EverythingComesFromEligibleEntries(scan, rest);
      assert forall i :: 0 <= i < |rest| ==> rest[i] == entries[i + 1];
      var x := ImportEntry(scan, entries[0]);
      var o := ImportEntries(scan, rest);
      forall p | p in ImportEntries(scan, entries).loaded
        ensures exists i :: 0 <= i < |entries| && Eligible(entries[i], scan.extensions) && p == PathOf(scan, entries[i])
      {
        if p in x.loaded {
          assert Eligible(entries[0], scan.extensions) && p == PathOf(scan, entries[0]);
        } else {
          assert p in o.loaded;
          var j :| 0 <= j < |rest| && Eligible(rest[j], scan.extensions) && p == PathOf(scan, rest[j]);
          assert entries[j + 1] == rest[j];
        }
      }
      forall r | r in ImportEntries(scan, entries).registered
        ensures exists i :: 0 <= i < |entries| && Eligible(entries[i], scan.extensions) && RegisteredAs(scan, r, entries[i])
      {
        if r in x.registered {
          assert Eligible(entries[0], scan.extensions) && RegisteredAs(scan, r, entries[0]);
        } else {
          assert r in o.registered;
          var j :| 0 <= j < |rest| && Eligible(rest[j], scan.extensions) && RegisteredAs(scan, r, rest[j]);
          assert entries[j + 1] == rest[j];
        }
      }
    }
  }

  /** A listing without eligible entries loads and registers nothing. */
  lemma {:induction false} NothingEligibleNothingImported<V, F>(scan: Scan<V, F>, entries: seq<Entry>)
    requires forall i :: 0 <= i < |entries| ==> !Eligible(entries[i], scan.extensions)
    ensures ImportEntries(scan, entries).loaded == []
    ensures ImportEntries(scan, entries).registered == []
    decreases |entries|
  {
    if |entries| > 0 {
      assert forall i :: 0 <= i < |entries[1..]| ==> entries[1..][i] == entries[i + 1];
      NothingEligibleNothingImported(scan, entries[1..]);
    }
  }

  /** When the first entry is eligible, two adaptations that disagree on its
      export, at most one of them throwing, register different things. */
  lemma FirstEligibleEntrySeparates<V, F>(
      scan: Scan<V, F>, other: TaskValue<V, F> -> Result<TaskValue<V, F>>, entries: seq<Entry>)
    requires |entries| > 0 && Eligible(entries[0], scan.extensions)
    requires scan.adapt(Exported(scan, entries[0])).Success? || other(Exported(scan, entries[0])).Success?
    requires scan.adapt(Exported(scan, entries[0])) != other(Exported(scan, entries[0]))
    ensures ImportEntries(scan, entries).registered != ImportEntries(scan.(adapt := other), entries).registered
  {
    var e := entries[0];
    var x1 := ImportEntry(scan, e);
    var x2 := ImportEntry(scan.(adapt := other), e);
    var r1 := ImportEntries(scan, entries).registered;
    var r2 := ImportEntries(scan.(adapt := other), entries).registered;
    if x1.error.Some? {
      assert r1 == [];
      assert |x2.registered| == 1 && r2[0] == x2.registered[0];
    } else if x2.error.Some? {
      assert r2 == [];
      assert |x1.registered| == 1 && r1[0] == x1.registered[0];
    } else {
      assert |x1.registered| == 1 && r1[0] == x1.registered[0];
      assert |x2.registered| == 1 && r2[0] == x2.registered[0];
      assert RegisteredAs(scan, r1[0], e);
      assert RegisteredAs(scan.(adapt := other), r2[0], e);
    }
  }

  /** Two passes whose adaptations never agree, and never both throw on the
      same export, produce the same outcome exactly when the first pass loads
      nothing. */
  lemma {:induction false} PassesAgreeIffNothingLoaded<V, F>(
      scan: Scan<V, F>, other: TaskValue<V, F> -> Result<TaskValue<V, F>>, entries: seq<Entry>)
    requires forall t :: (scan.adapt(t).Success? || other(t).Success?) && scan.adapt(t) != other(t)
    ensures ImportEntries(scan, entries) == ImportEntries(scan.(adapt := other), entries)
        <==> ImportEntries(scan, entries).loaded == []
    decreases |entries|
  {
    if |entries| > 0 {
      var e := entries[0];
      if e.stat.StatFailed? {
        assert ImportEntry(scan, e) == ImportEntry(scan.(adapt := other), e);
      } else if !Eligible(e, scan.extensions) {
        PassesAgreeIffNothingLoaded(scan, other, entries[1..]);
        var o1 := ImportEntries(scan, entries[1..]);
        var o2 := ImportEntries(scan.(adapt := other), entries[1..]);
        assert [] + o1.loaded == o1.loaded && [] + o1.registered == o1.registered;
        assert [] + o2.loaded == o2.loaded && [] + o2.registered == o2.registered;
      } else {
        FirstEligibleEntrySeparates(scan, other, entries);
        assert ImportEntry(scan, e).loaded != [];
      }
    }
  }
}
