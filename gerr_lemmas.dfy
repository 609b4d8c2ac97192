/**
 * What `New`, `WithErr`, `Add`, `Is` and `Sanitize` promise together: the
 * order in which `WithErr` options stack, the normalisation of an error
 * chain built with `fmt.Errorf`, and which targets `Is` recognises.
 */
module GerrProperties {
  import opened Wrappers
  import opened GoErrors
  import opened GoStrings
  import opened Chains
  import opened ChainProperties
  import opened WrappedErrors
  import opened Gerr
  import Kinds

  /** Options for consecutive texts are the options for their concatenation. */
  lemma WithErrsConcat(a: seq<string>, b: seq<string>)
    ensures WithErrs(a + b) == WithErrs(a) + WithErrs(b)
  {
    assert forall i :: 0 <= i < |a + b| ==> WithErrs(a + b)[i] == (WithErrs(a) + WithErrs(b))[i];
  }

  /**
   * `WithErr` options stack as the documentation of `WithErr` says: the
   * first text is the original error and every later one wraps what is
   * there, so the last one given ends up outermost.
   */
  lemma {:induction false} StackedOptions(k: Kind, texts: seq<string>, sep: string)
    requires k.separator == sep && |texts| >= 1
    ensures ApplyAll(Draft(k, None), WithErrs(texts)) == Draft(k, Some(Layered(Reversed(texts[1..]), texts[0], sep)))
    decreases |texts|
  {
    var opts := WithErrs(texts);
    if |texts| == 1 {
      assert opts[..0] == [];
      assert Reversed(texts[1..]) == [];
    } else {
      var front := texts[..|texts| - 1];
      var x := texts[|texts| - 1];
      assert opts[..|opts| - 1] == WithErrs(front);
      StackedOptions(k, front, sep);
      var below := Layered(Reversed(front[1..]), texts[0], sep);
      assert ApplyAll(Draft(k, None), opts) == Draft(k, Some(Wrapping(x + sep + Message(below), below)));
      assert texts[1..] == front[1..] + [x];
      ReversedConcat(front[1..], [x]);
      assert Reversed([x]) == [x];
      assert Reversed(texts[1..]) == [x] + Reversed(front[1..]);
      assert ([x] + Reversed(front[1..]))[1..] == Reversed(front[1..]);
    }
  }

  /** A chain of `fmt.Errorf` layers is determined by its layers and its bottom. */
  lemma {:induction false} LayersOfIsLayered(e: Error, layers: seq<string>, bottom: string, sep: string)
    requires LayersOf(e, layers, bottom, sep)
    ensures e == Layered(layers, bottom, sep)
    decreases |layers|
  {
    if layers != [] {
      LayersOfIsLayered(e.cause, layers[1..], bottom, sep);
    }
  }

  /** The root-first chain of `layers` over `bottom`, taken apart at both ends. */
  lemma ReversedLayers<T>(layers: seq<T>, bottom: T)
    requires |layers| >= 1
    ensures Reversed(layers + [bottom]) == [bottom] + Reversed(layers[1..]) + [layers[0]]
  {
    var rest := layers[1..];
    assert Reversed(layers) == Reversed(rest) + [layers[0]];
    ReversedConcat(layers, [bottom]);
    ReversedSingle(bottom);
    AppendAssoc([bottom], Reversed(rest), [layers[0]]);
  }

  /**
   * `newWrappedFromWrappedError` on a clean chain of layers: the outermost
   * layer becomes the kind, and the bottom and then the other layers,
   * innermost first, become `WithErr` options ahead of the caller's.
   */
  lemma NormalizeLayers(e: Error, layers: seq<string>, bottom: string, sep: string, opts: seq<ErrOption>)
    requires TopLayerOf(e, layers, bottom, sep) && CleanLayers(layers, bottom, sep)
    ensures Normalize(e, opts, sep) == (Plain(layers[0]), WithErrs([bottom] + Reversed(layers[1..])) + opts)
  {
    ChainRoundTrip(e, layers, bottom, sep);
    ReversedLayers(layers, bottom);
    var chain := Chain(e, [WithTrimCustom(sep)]);
    assert chain[..|chain| - 1] == [bottom] + Reversed(layers[1..]);
  }

  /**
   * `New` on a clean chain of layers with `WithErr` options: the outermost
   * layer is the kind and the nested error is the rest of the chain with
   * the options' texts stacked on top of it, the last option outermost.
   */
  lemma NewOfLayers(e: Error, layers: seq<string>, bottom: string, sep: string, texts: seq<string>)
    requires TopLayerOf(e, layers, bottom, sep) && CleanLayers(layers, bottom, sep)
    ensures NewOf(e, WithErrs(texts), sep)
      == WrappedError(Wrapped(Kind(Plain(layers[0]), sep), Layered(Reversed(texts) + layers[1..], bottom, sep)))
  {
    var all := [bottom] + Reversed(layers[1..]) + texts;
    assert Normalize(e, WithErrs(texts), sep) == (Plain(layers[0]), WithErrs(all)) by {
      NormalizeLayers(e, layers, bottom, sep, WithErrs(texts));
      WithErrsConcat([bottom] + Reversed(layers[1..]), texts);
    }
    NewOfStacked(e, WithErrs(texts), sep, Plain(layers[0]), all);
    StackOrder(bottom, layers[1..], texts);
  }

  /** The texts below the new kind, innermost first, read back outermost first. */
  lemma StackOrder<T>(bottom: T, rest: seq<T>, texts: seq<T>)
    ensures var all := [bottom] + Reversed(rest) + texts;
      all[0] == bottom && Reversed(all[1..]) == Reversed(texts) + rest
  {
    var all := [bottom] + Reversed(rest) + texts;
    assert all[1..] == Reversed(rest) + texts;
    ReversedConcat(Reversed(rest), texts);
    ReversedTwice(rest);
  }

  /**
   * When normalisation leaves a kind and `WithErr` options for some texts,
   * `New` stacks those texts over the first of them.
   */
  lemma NewOfStacked(k: Error, opts: seq<ErrOption>, sep: string, kind: Error, texts: seq<string>)
    requires Normalize(k, opts, sep) == (kind, WithErrs(texts)) && |texts| >= 1
    ensures NewOf(k, opts, sep) == WrappedError(Wrapped(Kind(kind, sep), Layered(Reversed(texts[1..]), texts[0], sep)))
  {
    StackedOptions(Kind(kind, sep), texts, sep);
  }

  /**
   * `New` without options keeps a clean chain as it is: the outermost
   * layer's text becomes the kind, the cause stays the nested error, and
   * the message does not change.
   */
  lemma NewKeepsChain(e: Error, layers: seq<string>, bottom: string, sep: string)
    requires TopLayerOf(e, layers, bottom, sep) && CleanLayers(layers, bottom, sep)
    ensures NewOf(e, [], sep) == WrappedError(Wrapped(Kind(Plain(layers[0]), sep), Unwrap(e)))
    ensures Message(NewOf(e, [], sep)) == Message(e)
  {
    NewOfLayers(e, layers, bottom, sep, []);
    assert WithErrs([]) == [];
    assert Reversed<string>([]) + layers[1..] == layers[1..];
    LayersOfIsLayered(Unwrap(e), layers[1..], bottom, sep);
  }

  /**
   * Round trip through `New`: the chain of the `wrapped` that `New` makes
   * from a clean chain of layers is that chain's own, root first.
   */
  lemma NewChainRoundTrip(e: Error, layers: seq<string>, bottom: string, sep: string)
    requires TopLayerOf(e, layers, bottom, sep) && CleanLayers(layers, bottom, sep)
    ensures NewOf(e, [], sep).WrappedError?
    ensures WrappedErrors.ChainOf(NewOf(e, [], sep).wrapped) == Reversed(layers + [bottom])
  {
    NewKeepsChain(e, layers, bottom, sep);
    var g := NewOf(e, [], sep);
    ChainCongruent(g, e, [WithTrimCustom(sep)]);
    ChainRoundTrip(e, layers, bottom, sep);
  }

  /**
   * `Is` on the `wrapped` that `New` makes from a clean chain of layers
   * recognises exactly the errors whose text is one of the layers or the
   * bottom.
   */
  lemma NewIsEveryLayer(e: Error, layers: seq<string>, bottom: string, sep: string, target: Error)
    requires TopLayerOf(e, layers, bottom, sep) && CleanLayers(layers, bottom, sep)
    ensures NewOf(e, [], sep).WrappedError?
    ensures Matches(NewOf(e, [], sep).wrapped, target) <==> Message(target) in layers + [bottom]
  {
    NewChainRoundTrip(e, layers, bottom, sep);
    NewKeepsChain(e, layers, bottom, sep);
    InReversed(layers + [bottom], Message(target));
    assert (layers + [bottom])[0] == layers[0];
  }

  /**
   * `New` on an error without `Unwrap`: without options it is the bare
   * kind; with `WithErr` options the first text is the original nested
   * error and the later ones wrap it.
   */
  lemma NewOfUnwrappable(k: Error, texts: seq<string>, sep: string)
    requires !Unwrappable(k)
    ensures texts == [] ==> NewOf(k, WithErrs(texts), sep) == KindError(Kind(k, sep))
    ensures texts != [] ==>
      NewOf(k, WithErrs(texts), sep) == WrappedError(Wrapped(Kind(k, sep), Layered(Reversed(texts[1..]), texts[0], sep)))
  {
    if texts != [] {
      StackedOptions(Kind(k, sep), texts, sep);
    }
  }

  /**
   * `New` without options on an error with `Unwrap` whose chain has at
   * most one element is the bare kind: `newWrappedFromWrappedError`
   * leaves such an error alone.
   */
  lemma NewOfShortChain(k: Error, sep: string)
    requires Unwrappable(k) && |Chain(k, [WithTrimCustom(sep)])| <= 1
    ensures NewOf(k, [], sep) == KindError(Kind(k, sep))
  {
    NormalizeSplitsChain(k, [], sep);
  }

  /**
   * An error that wraps an error with its own text has a one-element
   * chain, so `New` keeps it whole as the kind.
   */
  lemma NewOfRepeatedLayer(text: string, sep: string)
    ensures NewOf(Wrapping(text, Plain(text)), [], sep) == KindError(Kind(Wrapping(text, Plain(text)), sep))
  {
    RepeatedLayerIsDropped(text, [WithTrimCustom(sep)]);
    NewOfShortChain(Wrapping(text, Plain(text)), sep);
  }

  /**
   * A `wrapped` whose kind is the outermost of clean layers and whose
   * nested error is the rest of them has, as its chain, all of them root
   * first.
   */
  lemma WrappedChainRoundTrip(top: string, layers: seq<string>, bottom: string, sep: string)
    requires Separable([top] + layers, bottom, sep) && CleanLayers([top] + layers, bottom, sep)
    ensures WrappedErrors.ChainOf(Wrapped(Kind(Plain(top), sep), Layered(layers, bottom, sep))) == Reversed([top] + layers + [bottom])
  {
    var all := [top] + layers;
    assert all[1..] == layers;
    LayeredLayers(all, bottom, sep);
    var w := WrappedError(Wrapped(Kind(Plain(top), sep), Layered(layers, bottom, sep)));
    ChainCongruent(w, Layered(all, bottom, sep), [WithTrimCustom(sep)]);
    LayersOfTop(Layered(all, bottom, sep), all, bottom, sep);
    ChainRoundTrip(Layered(all, bottom, sep), all, bottom, sep);
  }

  /**
   * `Add` puts the new text just under the kind: the chain gains it
   * second from the end, and `Is` then recognises the added error.
   */
  lemma AddedIsFound(top: string, x: string, layers: seq<string>, bottom: string, sep: string)
    requires Separable([top, x] + layers, bottom, sep) && CleanLayers([top, x] + layers, bottom, sep)
    ensures var w := Add(Wrapped(Kind(Plain(top), sep), Layered(layers, bottom, sep)), Plain(x));
      WrappedErrors.ChainOf(w) == Reversed([top, x] + layers + [bottom]) && Matches(w, Plain(x))
  {
    var w := Add(Wrapped(Kind(Plain(top), sep), Layered(layers, bottom, sep)), Plain(x));
    assert w.err == Layered([x] + layers, bottom, sep) by {
      assert ([x] + layers)[1..] == layers;
    }
    assert [top] + ([x] + layers) == [top, x] + layers;
    WrappedChainRoundTrip(top, [x] + layers, bottom, sep);
    InReversed([top, x] + layers + [bottom], x);
    assert ([top, x] + layers + [bottom])[1] == x;
  }

  /**
   * `wrapped.Is` compares the kind and each link of the chain, never the
   * whole message: a value whose kind `top` sits over `bottom` does not
   * recognise an error reading `top + sep + bottom`, although that is its
   * own message.
   */
  lemma IsIgnoresWholeMessage(top: string, bottom: string, sep: string)
    requires Separable([top], bottom, sep) && CleanLayers([top], bottom, sep)
    ensures var w := Wrapped(Kind(Plain(top), sep), Plain(bottom));
      Message(WrappedError(w)) == top + sep + bottom && !Matches(w, Plain(top + sep + bottom))
  {
    var w := Wrapped(Kind(Plain(top), sep), Plain(bottom));
    var whole := top + sep + bottom;
    OneLayerChain(top, bottom, sep);
    LongerIsNotIn(whole, bottom, top);
    assert Message(w.kind.err) != whole;
    NotMatched(w, Plain(whole));
  }

  /** A target that is neither the kind's text nor a chain element does not match. */
  lemma NotMatched(w: Wrapped, target: Error)
    requires Message(w.kind.err) != Message(target) && Message(target) !in ChainOf(w)
    ensures !Matches(w, target)
  {
  }

  /** A sequence longer than both elements of a pair is neither of them. */
  lemma LongerIsNotIn<T>(x: seq<T>, a: seq<T>, b: seq<T>)
    requires |x| > |a| && |x| > |b|
    ensures x !in [a, b]
  {
  }

  /** The chain of a kind `top` over `bottom`: root first, then the kind's text. */
  lemma OneLayerChain(top: string, bottom: string, sep: string)
    requires Separable([top], bottom, sep) && CleanLayers([top], bottom, sep)
    ensures ChainOf(Wrapped(Kind(Plain(top), sep), Plain(bottom))) == [bottom, top]
  {
    assert Plain(bottom) == Layered([], bottom, sep);
    WrappedChainRoundTrip(top, [], bottom, sep);
    assert [top] + [] + [bottom] == [top, bottom];
    ReversedPair(top, bottom);
  }
}
