/**
 * The Go errors this library works on, as a closed set of values.
 *
 * Go finds out at run time whether an error has an `Unwrap() error` method;
 * here that capability is decided by the variant. Only the variants that the
 * core produces or inspects are modelled: plain errors, `fmt.Errorf` values
 * with one `%w` verb, and the package's own `kind` and `wrapped` values.
 */
module GoErrors {

  datatype Error =
    | /** `errors.New(text)`, or `fmt.Errorf` without `%w`: no cause. */
      Plain(text: string)
    | /** `fmt.Errorf` with one `%w`: its rendered text and the wrapped cause. */
      Wrapping(text: string, cause: Error)
    | /** The package's `kind`; it has no `Unwrap` method. */
      KindError(kind: Kind)
    | /** The package's `wrapped`; its `Unwrap` returns the nested error. */
      WrappedError(wrapped: Wrapped)

  /** `kind`: the error that states what went wrong, and the separator in effect when it was made. */
  datatype Kind = Kind(err: Error, separator: string)

  /** `wrapped`: a kind plus one nested error that carries the added context. */
  datatype Wrapped = Wrapped(kind: Kind, err: Error)

  /** `e.Error()` */
  function Message(e: Error): string
  {
    match e
    case Plain(t) => t
    case Wrapping(t, _) => t
    case KindError(k) => Message(k.err)
    case WrappedError(w) => Message(w.kind.err) + w.kind.separator + Message(w.err)
  }

  /** The Go type assertion `e.(interface{ Unwrap() error })` succeeds. */
  predicate Unwrappable(e: Error)
  {
    e.Wrapping? || e.WrappedError?
  }

  /** Number of `Unwrap` links below `e`. */
  function Depth(e: Error): nat
  {
    match e
    case Plain(_) => 0
    case Wrapping(_, c) => 1 + Depth(c)
    case KindError(_) => 0
    case WrappedError(w) => 1 + Depth(w.err)
  }

  /** `e.Unwrap()` */
  function Unwrap(e: Error): (r: Error)
    requires Unwrappable(e)
    ensures Depth(r) + 1 == Depth(e)
  {
    match e
    case Wrapping(_, c) => c
    case WrappedError(w) => w.err
  }

  /** The error at the bottom of the `Unwrap` chain. */
  function Root(e: Error): (r: Error)
    ensures !Unwrappable(r)
    ensures Depth(e) == 0 <==> r == e
    decreases Depth(e)
  {
    if Unwrappable(e) then Root(Unwrap(e)) else e
  }

  /**
   * How the package types read: a kind as the error it holds, and a
   * `wrapped` as its kind's text, then the kind's separator, then its
   * nested error's text, which is what `Unwrap` returns.
   */
  lemma MessageOfGrr(e: Error)
    ensures e.KindError? ==> Message(e) == Message(e.kind.err)
    ensures e.WrappedError? ==>
      var m := Message(e);
      var front := Message(KindError(e.wrapped.kind)) + e.wrapped.kind.separator;
      |m| == |front| + |Message(Unwrap(e))| && m[..|front|] == front && m[|front|..] == Message(Unwrap(e))
  {
  }

  /** The value implements the package interface `Grr`. */
  predicate IsGrr(e: Error)
  {
    e.KindError? || e.WrappedError?
  }

  /** `newKind(err)`: `sep` is the separator configured at the moment of the call. */
  function NewKind(err: Error, sep: string): (k: Kind)
    ensures Message(KindError(k)) == Message(err)
    ensures k.separator == sep
  {
    Kind(err, sep)
  }
}
