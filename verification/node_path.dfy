/** The two `path` helpers the importers use on a directory entry:
    `path.extname` and `path.basename(p, ext)`, both applied to a single path
    segment (a name returned by `fs.readdirSync`, which never holds `/`). */
module NodePath {
  import opened Base

  /** `path.join(process.cwd(), opts.dir)`. The join and its normalisation are
      not modelled; the directory is kept as the pair it is built from. */
  datatype Directory = Directory(cwd: string, relative: string)

  /** `path.join(dir, filename)` for an entry `filename` of `dir`. */
  datatype FilePath = FilePath(dir: Directory, name: string)

  /** Index of the last `.` in `s`, if any. */
  function LastDot(s: string): (r: Option<nat>)
    ensures r.None? ==> forall i :: 0 <= i < |s| ==> s[i] != '.'
    ensures r.Some? ==> r.value < |s| && s[r.value] == '.'
    ensures r.Some? ==> forall j :: r.value < j < |s| ==> s[j] != '.'
  {
    if |s| == 0 then None
    else if s[|s| - 1] == '.' then Some(|s| - 1)
    else LastDot(s[..|s| - 1])
  }

  /** Node's `path.extname` on one segment: the suffix starting at the last
      `.`, or "" when there is no `.`, when the last `.` is the first
      character (`.bashrc`), or for the segment `..`. */
  function ExtName(segment: string): (ext: string)
    // a non-empty extension is a proper suffix: `.` and then no further `.`
    ensures ext != "" ==> |ext| < |segment| && segment[|segment| - |ext|..] == ext
    ensures ext != "" ==> ext[0] == '.' && forall k :: 0 < k < |ext| ==> ext[k] != '.'
    // and it is non-empty exactly when some `.` follows the first character
    ensures ext != "" <==> segment != ".." && exists i :: 0 < i < |segment| && segment[i] == '.'
  {
    match LastDot(segment)
    case None => ""
    case Some(i) => if i == 0 || segment == ".." then "" else segment[i..]
  }

  /** Node's `path.basename(path, suffix)` for a path whose last segment is
      `path.name`: the suffix is removed when it is a non-empty, proper
      suffix of that segment; otherwise the segment is returned whole. */
  function BaseName(path: FilePath, suffix: string): (base: string)
    ensures 0 < |suffix| < |path.name| && path.name[|path.name| - |suffix|..] == suffix ==>
              base + suffix == path.name
    ensures !(0 < |suffix| < |path.name| && path.name[|path.name| - |suffix|..] == suffix) ==>
              base == path.name
  {
    var name := path.name;
    if 0 < |suffix| < |name| && name[|name| - |suffix|..] == suffix
    then name[..|name| - |suffix|]
    else name
  }

  /** The task name both importers derive: `path.basename(filePath, ext)`
      with `ext = path.extname(filename)`. */
  function TaskName(path: FilePath): (name: string)
    // the name and the extension put back together give the file name
    ensures name + ExtName(path.name) == path.name
    ensures ExtName(path.name) != "" ==> name != ""
  {
    BaseName(path, ExtName(path.name))
  }

  /** Two files with the same extension get the same task name only if they
      are the same file name; the directory plays no part. */
  lemma TaskNameInjective(p: FilePath, q: FilePath)
    requires ExtName(p.name) == ExtName(q.name)
    ensures TaskName(p) == TaskName(q) <==> p.name == q.name
  {
  }

  /** With more than one recognised extension, distinct files can share a
      task name: `a.js` and `a.ts` both become `a`. */
  lemma TaskNamesCollideAcrossExtensions(dir: Directory)
    ensures TaskName(FilePath(dir, "a.js")) == TaskName(FilePath(dir, "a.ts")) == "a"
  {
    assert LastDot("a.js") == Some(1) by {
      assert "a.js"[..3] == "a.j" && "a.j"[..2] == "a.";
    }
    assert LastDot("a.ts") == Some(1) by {
      assert "a.ts"[..3] == "a.t" && "a.t"[..2] == "a.";
    }
  }
}
