/** Optional values, the failure kinds the application throws, and the
    "optional-or-throw" step every service performs. */
module Wrappers {

  /** Java's `Optional<T>`: a value, or empty. */
  datatype Option<+T> = None | Some(value: T)

  /** The exception kinds that travel between the layers. */
  datatype Failure =
    | NotFound         // java.util.NoSuchElementException
    | InvalidArgument  // IllegalArgumentException
    | IllegalState     // IllegalStateException
    | StoreError       // an exception of the store, rethrown by a repository

  /** A call that either returns a value or throws. */
  datatype Result<+T> = Ok(value: T) | Err(error: Failure)

  /** `optional.orElseThrow(() -> new <kind>(...))`. */
  function OrElseThrow<T>(o: Option<T>, kind: Failure): (r: Result<T>)
    ensures r.Ok? <==> o.Some?
    ensures r.Ok? ==> r.value == o.value
    ensures r.Err? ==> r.error == kind
  {
    match o
    case Some(v) => Ok(v)
    case None => Err(kind)
  }

  /** A call returning an `Optional` that may also throw, followed by
      `orElseThrow`: a thrown failure passes through unchanged, an empty
      result becomes `kind`. */
  function ThenOrElseThrow<T>(o: Result<Option<T>>, kind: Failure): (r: Result<T>)
    ensures r.Ok? <==> o.Ok? && o.value.Some?
    ensures r.Ok? ==> r.value == o.value.value
    ensures r.Err? ==> r.error == (if o.Err? then o.error else kind)
  {
    match o
    case Err(e) => Err(e)
    case Ok(v) => OrElseThrow(v, kind)
  }
}
