/**
 * The package entry points (error.go): `New`, which returns a `kind` or a
 * `wrapped` behind the `Grr` interface, and `AsGrr`. A Go `nil` error is
 * `None`. The separator read from the package configuration is `sep`.
 */
module Gerr {
  import opened Wrappers
  import opened GoErrors
  import opened WrappedErrors
  import Kinds

  /**
   * `New(kind, opts...)`: the `wrapped` that `newWrapped` builds when it
   * ends up with a nested error, and its bare kind otherwise. That happens
   * exactly when normalisation leaves no option to apply.
   */
  function NewOf(k: Error, opts: seq<ErrOption>, sep: string): (g: Error)
    ensures IsGrr(g)
    ensures g.KindError? <==> Normalize(k, opts, sep).1 == []
    ensures g.KindError? ==> g.kind == Kind(k, sep)
    ensures g.WrappedError? ==> g.wrapped.kind == Kind(Normalize(k, opts, sep).0, sep)
  {
    var d := NewWrappedOf(k, opts, sep);
    if d.err.Some? then WrappedError(Wrapped(d.kind, d.err.value)) else KindError(d.kind)
  }

  /** `New` as the Go code runs it: `newWrapped`, then the nil test on its nested error. */
  method New(k: Error, opts: seq<ErrOption>, sep: string) returns (g: Error)
    ensures g == NewOf(k, opts, sep)
  {
    var d := NewWrapped(k, opts, sep);
    if d.err.Some? {
      g := WrappedError(Wrapped(d.kind, d.err.value));
    } else {
      g := KindError(d.kind);
    }
  }

  /**
   * `AsGrr`: nil stays nil, a `Grr` is returned unchanged, and any other
   * error is passed to `New` without options.
   */
  method AsGrr(e: Option<Error>, sep: string) returns (r: Option<Error>)
    ensures r.None? <==> e.None?
    ensures r.Some? ==> IsGrr(r.value)
    ensures e.Some? && IsGrr(e.value) ==> r == e
    ensures e.Some? && !IsGrr(e.value) ==> r == Some(NewOf(e.value, [], sep))
  {
    if e.None? {
      return None;
    }
    if IsGrr(e.value) {
      return e;
    }
    var g := New(e.value, [], sep);
    return Some(g);
  }

  /**
   * `Sanitize` of the `Grr` interface on either implementation: a kind
   * stays as it is and a `wrapped` gives up its kind.
   */
  function Sanitize(g: Error): (r: Error)
    requires IsGrr(g)
    ensures r.KindError?
    ensures r.kind == if g.KindError? then g.kind else g.wrapped.kind
    ensures Message(r) == if g.KindError? then Message(g) else Message(g.wrapped.kind.err)
  {
    match g
    case KindError(k) => Kinds.Sanitize(k)
    case WrappedError(w) => WrappedErrors.Sanitize(w)
  }

  /** Sanitizing what `Sanitize` returned changes nothing. */
  lemma SanitizeIdempotent(g: Error)
    requires IsGrr(g)
    ensures Sanitize(Sanitize(g)) == Sanitize(g)
  {
  }
}
