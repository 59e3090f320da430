/**
 * The failure vocabulary of the conversion script: the Python exceptions that
 * its code paths can raise, and the numpy/Python indexing rule that decides
 * when an index raises one.
 */
module PyErrors {

  datatype Option<+T> = None | Some(value: T)

  /** The exceptions the script raises or lets propagate. */
  datatype Error =
    | ValueError(mode: string)   // an unsupported conversion mode
    | KeyError(key: string)      // a dict key that is not present
    | IndexError(index: int)     // an array index outside the array
    | NameError(name: string)    // a name that is never bound

  /** A value, or the exception raised while computing it. */
  datatype Result<+T> = Success(value: T) | Failure(error: Error) {
    predicate IsFailure() {
      Failure?
    }

    function PropagateFailure<U>(): Result<U>
      requires Failure?
    {
      Failure(error)
    }

    function Extract(): T
      requires Success?
    {
      value
    }
  }

  /** How a statement sequence ended: normally, or by raising an exception. */
  datatype Outcome = Pass | Fail(error: Error)

  /**
   * Indexing a one-dimensional sequence the way Python lists and numpy arrays
   * do: an index in [0, |s|) selects that element, an index in [-|s|, 0)
   * counts from the end, and anything else raises IndexError.
   */
  function PyIndex<T>(s: seq<T>, i: int): (r: Result<T>)
    ensures r.Success? <==> -|s| <= i < |s|
    ensures r.Failure? ==> r.error == IndexError(i)
    ensures 0 <= i < |s| ==> r.value == s[i]
    ensures -|s| <= i < 0 ==> r.value == s[|s| + i]
  {
    if 0 <= i < |s| then Success(s[i])
    else if -|s| <= i < 0 then Success(s[|s| + i])
    else Failure(IndexError(i))
  }
}
