/** `result<T>` and `result_map`: a value or an error code, and the one combinator the library
    builds its factories from. */
module Results {

  datatype Option<+T> = None | Some(value: T)

  // std::variant<T, std::error_code>; an error code is its integer value.
  datatype Result<+T> = Value(value: T) | Error(code: int)

  // result_map: the mapped function may itself return a result (an ordinary value is converted
  // to one on return), so this is the monadic bind and, with a total function, the functor map.
  function ResultMap<T, U>(r: Result<T>, f: T -> Result<U>): Result<U> {
    match r
    case Value(v) => f(v)
    case Error(c) => Error(c)
  }

  // The chain a caller writes: each stage is mapped over the result of the stages before it.
  function Chain<T>(r: Result<T>, stages: seq<T -> Result<T>>): Result<T>
    decreases |stages|
  {
    if stages == [] then r else ResultMap(Chain(r, stages[..|stages| - 1]), stages[|stages| - 1])
  }

  // The same stages composed into a single function before anything is mapped.
  function Compose<T>(stages: seq<T -> Result<T>>): T -> Result<T>
    decreases |stages|
  {
    if stages == [] then (t: T) => Value(t)
    else
      var first, rest := stages[0], Compose(stages[1..]);
      (t: T) => ResultMap(first(t), rest)
  }

  lemma {:induction false} ChainFront<T>(r: Result<T>, stages: seq<T -> Result<T>>)
    requires stages != []
    ensures Chain(r, stages) == Chain(ResultMap(r, stages[0]), stages[1..])
    decreases |stages|
  {
    if |stages| > 1 {
      var init := stages[..|stages| - 1];
      ChainFront(r, init);
      assert init[1..] == stages[1..][..|stages| - 2];
    }
  }

  // Mapping the stages one after the other equals one map of their composition.
  lemma {:induction false} ChainIsOneMap<T>(r: Result<T>, stages: seq<T -> Result<T>>)
    ensures Chain(r, stages) == ResultMap(r, Compose(stages))
    decreases |stages|
  {
    if stages != [] {
      ChainFront(r, stages);
      ChainIsOneMap(ResultMap(r, stages[0]), stages[1..]);
    }
  }

  // Stage k fails on what the stages before it made of v, and it is the first one to fail.
  ghost predicate FirstFailure<T>(v: T, stages: seq<T -> Result<T>>, k: nat, code: int)
    requires k < |stages|
  {
    Chain(Value(v), stages[..k]).Value? && stages[k](Chain(Value(v), stages[..k]).value) == Error(code)
  }

  // An error entering the chain leaves it unchanged; an error leaving a chain that was entered
  // with a value is the code of the first stage that failed, and of no later one.
  lemma {:induction false} ChainReportsFirstError<T>(r: Result<T>, stages: seq<T -> Result<T>>, code: int)
    ensures Chain(r, stages) == Error(code) <==>
            r == Error(code) ||
            (r.Value? && exists k: nat :: k < |stages| && FirstFailure(r.value, stages, k, code))
    decreases |stages|
  {
    if stages != [] && r.Value? {
      var n := |stages| - 1;
      var init, v := stages[..n], r.value;
      ChainReportsFirstError(r, init, code);
      forall k: nat | k < n
        ensures FirstFailure(v, stages, k, code) == FirstFailure(v, init, k, code)
      {
        assert stages[..k] == init[..k];
      }
      if k: nat :| k < n && FirstFailure(v, init, k, code) {
        assert FirstFailure(v, stages, k, code);
      }
      if Chain(r, init).Value? && stages[n](Chain(r, init).value) == Error(code) {
        assert FirstFailure(v, stages, n, code);
      }
    } else if stages != [] {
      ChainIsOneMap(r, stages);
    }
  }
}
