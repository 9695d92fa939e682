/** The two outcomes every fallible operation of the library has. Error texts are not modelled. */
module Results {

  datatype Option<+T> = None | Some(value: T)

  datatype Result<+T> = Ok(value: T) | Err {
    predicate IsFailure() {
      Err?
    }

    function PropagateFailure<U>(): Result<U>
      requires Err?
    {
      Err
    }

    function Extract(): T
      requires Ok?
    {
      value
    }
  }

  /** What a decoding loop returns when it has collected done and r is the outcome of the rest. */
  function Prepend<T>(done: seq<T>, r: Result<seq<T>>): Result<seq<T>>
  {
    if r.Ok? then Ok(done + r.value) else Err
  }

  lemma PrependEmpty<T>(done: seq<T>, r: Result<seq<T>>)
    ensures Prepend([], r) == r
    ensures Prepend(done, Ok([])) == Ok(done)
  {
    if r.Ok? {
      assert [] + r.value == r.value;
    }
    assert done + [] == done;
  }
}
