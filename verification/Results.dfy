/** The outcome of an operation that can fail. */
module Results {
  datatype Result<+T, +E> = Ok(value: T) | Err(error: E)

  /** What there is already in front of what is still to come, or the error. */
  function Behind<T, E>(front: seq<T>, r: Result<seq<T>, E>): Result<seq<T>, E> {
    match r
    case Err(e) => Err(e)
    case Ok(more) => Ok(front + more)
  }

  lemma BehindNothing<T, E>(r: Result<seq<T>, E>)
    ensures Behind([], r) == r
  {
    if r.Ok? {
      assert [] + r.value == r.value;
    }
  }

  lemma BehindOneMore<T, E>(front: seq<T>, x: T, r: Result<seq<T>, E>)
    ensures Behind(front, Behind([x], r)) == Behind(front + [x], r)
  {
    if r.Ok? {
      assert front + ([x] + r.value) == front + [x] + r.value;
    }
  }
}
