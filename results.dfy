/** Outcomes of the modelled Python operations: a value, or the exception raised. */
module Results {

  /** The Python exceptions the modelled code raises. */
  datatype Error = KeyError | ValueError | IndexError | AttributeError

  datatype Option<T> = None | Some(value: T)

  datatype Result<T> = Ok(value: T) | Err(error: Error)

  /** `prefix + r` when `r` succeeded: the result of accumulating a string
      in front of a computation that may raise. */
  function Prefixed(prefix: string, r: Result<string>): (q: Result<string>)
    ensures q.Ok? <==> r.Ok?
    ensures q.Ok? ==> q.value == prefix + r.value
    ensures q.Err? ==> q.error == r.error
  {
    match r
    case Ok(s) => Ok(prefix + s)
    case Err(e) => Err(e)
  }

  lemma PrefixedTwice(a: string, b: string, r: Result<string>)
    ensures Prefixed(a, Prefixed(b, r)) == Prefixed(a + b, r)
  {
    if r.Ok? {
      assert a + (b + r.value) == (a + b) + r.value;
    }
  }

  lemma PrefixedEmpty(r: Result<string>)
    ensures Prefixed("", r) == r
  {
    if r.Ok? {
      assert "" + r.value == r.value;
    }
  }
}
