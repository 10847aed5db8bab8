/** Failure-carrying wrappers shared by every module of the model. */
module Wrappers {

  /** A value that may be absent (a Go nil pointer or a missing map entry). */
  datatype Option<+T> = None | Some(value: T)

  /** A Go `(value, error)` pair in which exactly one half is meaningful. */
  datatype Result<+T, +E> = Success(value: T) | Failure(error: E) {

    predicate IsFailure() {
      Failure?
    }

    function PropagateFailure<U>(): Result<U, E>
      requires Failure?
    {
      Failure(error)
    }

    function Extract(): T
      requires Success?
    {
      value
    }
  }
}

/** The error values of the engine: the sentinel errors of the navigator and
    the descriptor source, the `errors.Wrap` chain that annotates them, the
    `*strconv.NumError` of the number parsers, plain `fmt.Errorf` texts, and
    the places where the Go code panics. */
module Errors {

  /** The sentinel errors declared with `errors.New`. */
  datatype Kind =
    | PackageUnselected
    | ServiceUnselected
    | UnknownPackage
    | UnknownService
    | InvalidServiceName
    | InvalidMessageName
    | InvalidRPCName
    | SymbolNotFound

  /** The two causes strconv reports in a `*NumError`. */
  datatype NumCause = ErrSyntax | ErrRange

  datatype Error =
    | Sentinel(kind: Kind)
    | Wrapped(inner: Error, context: string)
    | NumError(func: string, num: string, cause: NumCause)
    | Text(message: string)
      /** The Go code panics here; the model returns the panic instead. */
    | Panic(message: string)
      /** The Go code recurses without bound here (a self-referential schema);
          the model runs out of its depth budget and says so. */
    | DepthExceeded

  /** `errors.Cause`: the innermost error of a wrap chain. */
  function Cause(e: Error): (r: Error)
    ensures !r.Wrapped?
  {
    if e.Wrapped? then Cause(e.inner) else e
  }

  /** `errors.Wrapf(sentinel, "%s not found", name)`. */
  function NotFound(k: Kind, name: string): (r: Error)
    ensures Cause(r) == Sentinel(k)
  {
    Wrapped(Sentinel(k), name + " not found")
  }

  /** True when `e` is, after unwrapping, the sentinel `k`. */
  predicate Is(e: Error, k: Kind) {
    Cause(e) == Sentinel(k)
  }
}
