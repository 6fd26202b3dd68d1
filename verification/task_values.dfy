/** What a task module exports, and the two things the importers do with a
    function export: `Function.prototype.bind` and calling it. JavaScript
    values are the type parameter `V`; function identities are `F`. Only the
    argument-prefix meaning of `bind` is kept (not `this`, not identity). */
module TaskValues {
  import opened Base

  /** A module's export as gulp sees it: an array (a composite of task
      references), a function, possibly already bound to leading arguments,
      or any other value (`{}` for a file that sets no `module.exports`). */
  datatype TaskValue<V, F> =
    | TaskList(items: seq<V>)
    | TaskCallable(target: F, bound: seq<V>)
    | OtherValue(value: V)

  /** A call arriving at the original function `target` with `args`. */
  datatype Call<V, F> = Call(target: F, args: seq<V>)

  /** `value.bind.apply(value, [value].concat(args))`: a function gains `args`
      after the arguments it already carries; an array or any other
      non-function has no `bind`, so the `.apply` read on `undefined` throws. */
  function Bind<V, F>(value: TaskValue<V, F>, args: seq<V>): (r: Result<TaskValue<V, F>>)
    ensures !value.TaskCallable? <==> r.Failure?
    ensures r.Failure? ==> r.error.TypeError?
    ensures r.Success? ==> r.value.TaskCallable? && r.value.target == value.target
    ensures r.Success? ==> |r.value.bound| == |value.bound| + |args|
  {
    match value
    case TaskCallable(f, bound) => Success(TaskCallable(f, bound + args))
    case _ => Failure(TypeError("Cannot read properties of undefined (reading 'apply')"))
  }

  /** Calling `value(...args)`: the original function receives the bound
      arguments first and the call-time arguments after them. Calling
      anything else throws. */
  function Invoke<V, F>(value: TaskValue<V, F>, args: seq<V>): (r: Result<Call<V, F>>)
    ensures !value.TaskCallable? <==> r.Failure?
    ensures r.Success? ==> r.value.target == value.target
    ensures r.Success? ==> |r.value.args| == |value.bound| + |args|
    ensures r.Success? ==> r.value.args[..|value.bound|] == value.bound
    ensures r.Success? ==> r.value.args[|value.bound|..] == args
  {
    match value
    case TaskCallable(f, bound) => Success(Call(f, bound + args))
    case _ => Failure(TypeError("task is not a function"))
  }

  /** Partial application: calling a bound function with `args` is calling
      the unbound one with the bound prefix followed by `args`. */
  lemma BindThenInvoke<V, F>(value: TaskValue<V, F>, prefix: seq<V>, args: seq<V>)
    requires value.TaskCallable?
    ensures Bind(value, prefix).Success?
    ensures Invoke(Bind(value, prefix).value, args) == Invoke(value, prefix + args)
  {
    assert (value.bound + prefix) + args == value.bound + (prefix + args);
  }

  /** Binding twice is binding once with both prefixes, in order. */
  lemma BindTwice<V, F>(value: TaskValue<V, F>, first: seq<V>, second: seq<V>)
    requires value.TaskCallable?
    ensures Bind(Bind(value, first).value, second) == Bind(value, first + second)
  {
    assert (value.bound + first) + second == value.bound + (first + second);
  }
}
