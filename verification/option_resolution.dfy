/** `extendDefaultOptions`, the shallow `Object.assign` of the caller's
    options over the defaults, identical in both versions of the importer. */
module OptionResolution {
  import opened Base

  const DefaultDirectory: string := "tasks"
  const DefaultExtensions: seq<string> := [".js"]

  /** The resolved options: every recognised key present. */
  datatype Options<V> = Options(dir: string, extensions: seq<string>, params: seq<V>)

  /** An options object as a caller writes it: any recognised key may be
      missing. Extra keys are not modelled. */
  datatype PartialOptions<V> = PartialOptions(
    dir: Option<string>,
    extensions: Option<seq<string>>,
    params: Option<seq<V>>)

  /** The importer's argument: absent, a bare directory string, or an object. */
  datatype OptionsInput<V> =
    | NoOptions
    | DirectoryName(name: string)
    | OptionsObject(fields: PartialOptions<V>)

  function Defaults<V>(): Options<V>
  {
    Options(DefaultDirectory, DefaultExtensions, [])
  }

  /** An object that supplies every key, taken from `opts`. */
  function Complete<V>(opts: Options<V>): PartialOptions<V>
  {
    PartialOptions(Some(opts.dir), Some(opts.extensions), Some(opts.params))
  }

  /** `Object.assign({dir, extensions, params} defaults, given)`: a key the
      caller supplies wins, a key the caller leaves out keeps its default. */
  function ExtendDefaultOptions<V>(given: PartialOptions<V>): (opts: Options<V>)
    ensures given.dir.Some? ==> opts.dir == given.dir.value
    ensures given.dir.None? ==> opts.dir == DefaultDirectory
    ensures given.extensions.Some? ==> opts.extensions == given.extensions.value
    ensures given.extensions.None? ==> opts.extensions == DefaultExtensions
    ensures given.params.Some? ==> opts.params == given.params.value
    ensures given.params.None? ==> opts.params == []
  {
    Options(
      match given.dir case Some(d) => d case None => DefaultDirectory,
      match given.extensions case Some(e) => e case None => DefaultExtensions,
      match given.params case Some(p) => p case None => [])
  }

  /** An object with no recognised key resolves to exactly the defaults, and
      one that supplies every key leaves the defaults no say. */
  lemma ExtendDefaultOptionsBounds<V>(opts: Options<V>)
    ensures ExtendDefaultOptions<V>(PartialOptions(None, None, None)) == Defaults()
    ensures ExtendDefaultOptions(Complete(opts)) == opts
  {
  }

  /** Resolving already-resolved options changes nothing. */
  lemma ExtendDefaultOptionsIdempotent<V>(given: PartialOptions<V>)
    ensures ExtendDefaultOptions(Complete(ExtendDefaultOptions(given))) == ExtendDefaultOptions(given)
  {
  }
}
