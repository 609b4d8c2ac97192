/**
 * The package type `kind` (kind.go): the error that states what went wrong,
 * without context. Its `Add` goes through `newWrapped`, so the separator in
 * effect at that moment is the parameter `sep`.
 */
module Kinds {
  import opened Wrappers
  import opened GoErrors
  import opened Chains
  import WrappedErrors

  /** `kind.Sanitize`: a kind carries no context, so it is returned as it is. */
  function Sanitize(k: Kind): (g: Error)
    ensures g == KindError(k)
    ensures IsGrr(g) && !Unwrappable(g) && Message(g) == Message(k.err)
  {
    KindError(k)
  }

  /**
   * `kind.Add`: `newWrapped(k, WithErr(x))`. A kind has no `Unwrap` method,
   * so nothing is normalised: the result nests the whole kind as the new
   * kind's error, under the separator in effect now, over `x`.
   */
  method Add(k: Kind, x: Error, sep: string) returns (g: Error)
    ensures g == WrappedError(Wrapped(Kind(KindError(k), sep), x))
    ensures Message(g) == Message(k.err) + sep + Message(x)
    ensures WrappedErrors.Sanitize(g.wrapped) == KindError(Kind(Sanitize(k), sep))
    ensures forall target :: Is(k, target) ==> WrappedErrors.Matches(g.wrapped, target)
  {
    var opts := [WrappedErrors.WithErr(x)];
    var w := WrappedErrors.NewWrapped(KindError(k), opts, sep);
    WrappedErrors.NewWrappedOfOne(KindError(k), x, sep);
    g := WrappedError(Wrapped(w.kind, w.err.value));
    forall target | Is(k, target)
      ensures WrappedErrors.Matches(g.wrapped, target)
    {
      assert Message(g.wrapped.kind.err) == Message(target);
    }
  }

  /** `kind.Is`: the kind's text is the target's. */
  predicate Is(k: Kind, target: Error)
  {
    Message(k.err) == Message(target)
  }

  /**
   * A kind recognises itself, the error it holds and what its `Sanitize`
   * returns, and sees a target only through the target's text.
   */
  lemma IsByText(k: Kind, a: Error, b: Error)
    ensures Is(k, KindError(k)) && Is(k, k.err) && Is(k, Sanitize(k))
    ensures Message(a) == Message(b) ==> (Is(k, a) <==> Is(k, b))
  {
  }

  /** `kind.Chain`: a kind is a single link, its text trimmed of its own separator. */
  function ChainOf(k: Kind): (r: seq<string>)
    ensures r == [TrimCustom(Message(k.err), k.separator)]
  {
    var opts := [WithTrimCustom(k.separator)];
    assert ConfigOf(opts).trimCustom == Some(k.separator);
    Chain(KindError(k), opts)
  }
}
