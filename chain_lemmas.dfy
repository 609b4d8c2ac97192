/**
 * What the chain engine promises: the two orders are reverses of each
 * other, and a chain built by joining layers with a separator comes apart
 * into exactly those layers.
 */
module ChainProperties {
  import opened Wrappers
  import opened GoErrors
  import opened GoStrings
  import opened Chains

  lemma {:induction false} ReversedTwice<T>(s: seq<T>)
    ensures Reversed(Reversed(s)) == s
  {
    var r := Reversed(Reversed(s));
    ReversedIndex(s);
    ReversedIndex(Reversed(s));
    forall k | 0 <= k < |s|
      ensures r[k] == s[k]
    {
      assert Reversed(s)[|s| - 1 - k] == s[k];
    }
  }

  lemma {:induction false} ReversedConcat<T>(a: seq<T>, b: seq<T>)
    ensures Reversed(a + b) == Reversed(b) + Reversed(a)
  {
    var r, q := Reversed(a + b), Reversed(b) + Reversed(a);
    ReversedIndex(a + b);
    ReversedIndex(a);
    ReversedIndex(b);
    assert |r| == |q|;
    forall k | 0 <= k < |r|
      ensures r[k] == q[k]
    {
      if k < |b| {
        assert q[k] == Reversed(b)[k];
      } else {
        assert q[k] == Reversed(a)[k - |b|];
      }
    }
  }

  lemma {:induction false} InReversed<T>(s: seq<T>, x: T)
    ensures x in Reversed(s) <==> x in s
  {
    ReversedIndex(s);
    if x in s {
      var i :| 0 <= i < |s| && s[i] == x;
      assert Reversed(s)[|s| - 1 - i] == x;
    }
    if x in Reversed(s) {
      var i :| 0 <= i < |s| && Reversed(s)[i] == x;
      assert s[|s| - 1 - i] == x;
    }
  }

  /** The walk does not depend on the order flag. */
  lemma {:induction false} WalkIgnoresOrder(chain: seq<string>, current: Error, next: Error, c: SanitizeConfig, normal: bool)
    requires Unwrappable(current) && next == Unwrap(current)
    ensures Walk(chain, current, next, c) == Walk(chain, current, next, c.(noInverseOrder := normal))
    decreases Depth(current)
  {
    var c' := c.(noInverseOrder := normal);
    assert forall s :: SanitizeString(s, c) == SanitizeString(s, c');
    if Unwrappable(next) {
      WalkIgnoresOrder(SanitizeAppend(chain, current, next, c), Unwrap(current), Unwrap(next), c, normal);
    }
  }

  /** The default order is exactly the reverse of the order under `WithNormalOrder`. */
  lemma DefaultOrderIsReverseOfNormal(e: Error, opts: seq<SanitizeOpt>)
    requires WithNormalOrder !in opts
    ensures Chain(e, opts) == Reversed(Chain(e, opts + [WithNormalOrder]))
  {
    var c := ConfigOf(opts);
    ConfigOfNormalOrder(opts);
    if Unwrappable(e) {
      WalkIgnoresOrder([], e, Unwrap(e), c, true);
    } else {
      var text := SanitizeString(Message(e), c);
      SanitizeIgnoresOrder(Message(e), c);
      ReversedSingle(text);
    }
  }

  /** Adding `WithNormalOrder` last sets the order flag and nothing else. */
  lemma ConfigOfNormalOrder(opts: seq<SanitizeOpt>)
    ensures ConfigOf(opts + [WithNormalOrder]) == ConfigOf(opts).(noInverseOrder := true)
  {
    var withNormal := opts + [WithNormalOrder];
    assert withNormal[..|withNormal| - 1] == opts;
  }

  /** Sanitizing does not read the order flag. */
  lemma SanitizeIgnoresOrder(s: string, c: SanitizeConfig)
    ensures SanitizeString(s, c.(noInverseOrder := true)) == SanitizeString(s, c)
  {
  }

  /**
   * The error that `genWrappedErrWith` builds in the tests: `layers[0]` is
   * the outermost text (`top1`), `bottom` the innermost (`botN`), and each
   * layer is `fmt.Errorf("%v%s%w", text, sep, inner)`.
   */
  function Layered(layers: seq<string>, bottom: string, sep: string): (e: Error)
    ensures Depth(e) == |layers|
    ensures Root(e) == Plain(bottom)
    decreases |layers|
  {
    if layers == [] then Plain(bottom)
    else
      var inner := Layered(layers[1..], bottom, sep);
      Wrapping(layers[0] + sep + Message(inner), inner)
  }

  /**
   * Every layer's raw delta is its text followed by the separator: that
   * text is not empty, and the inner message occurs only at its end.
   */
  predicate Separable(layers: seq<string>, bottom: string, sep: string)
    decreases |layers|
  {
    layers == [] ||
    (layers[0] + sep != []
     && OnlyAtEnd(layers[0] + sep, Message(Layered(layers[1..], bottom, sep)))
     && Separable(layers[1..], bottom, sep))
  }

  /** Each layer's delta, sanitized. */
  function Sanitized(layers: seq<string>, sep: string, c: SanitizeConfig): (r: seq<string>)
    ensures |r| == |layers|
  {
    if layers == [] then [] else [SanitizeString(layers[0] + sep, c)] + Sanitized(layers[1..], sep, c)
  }

  /**
   * `e` is a chain of `fmt.Errorf` layers over `Plain(bottom)`: each layer
   * adds exactly its text and the separator in front of its cause's
   * message, and the cause's message occurs nowhere earlier in it.
   */
  predicate LayersOf(e: Error, layers: seq<string>, bottom: string, sep: string)
    decreases |layers|
  {
    if layers == [] then e == Plain(bottom)
    else
      e.Wrapping? && e.text == layers[0] + sep + Message(e.cause) && layers[0] + sep != []
      && OnlyAtEnd(layers[0] + sep, Message(e.cause)) && LayersOf(e.cause, layers[1..], bottom, sep)
  }

  /**
   * `e` is any error with an `Unwrap` method that adds exactly
   * `layers[0]` and the separator to its cause, and its cause is a chain
   * of layers: a `wrapped` value over such a chain is one.
   */
  predicate TopLayerOf(e: Error, layers: seq<string>, bottom: string, sep: string)
  {
    |layers| >= 1 && Unwrappable(e) && Message(e) == layers[0] + sep + Message(Unwrap(e))
    && layers[0] + sep != [] && OnlyAtEnd(layers[0] + sep, Message(Unwrap(e)))
    && LayersOf(Unwrap(e), layers[1..], bottom, sep)
  }

  /** A separable layered error is taken apart layer by layer. */
  lemma {:induction false} LayeredLayers(layers: seq<string>, bottom: string, sep: string)
    requires Separable(layers, bottom, sep)
    ensures LayersOf(Layered(layers, bottom, sep), layers, bottom, sep)
    decreases |layers|
  {
    if layers != [] {
      LayeredLayers(layers[1..], bottom, sep);
    }
  }

  /** The link on top of a layered error adds exactly its own layer and separator. */
  lemma LayerDelta(chain: seq<string>, head: Error, layer: string, sep: string, c: SanitizeConfig)
    requires head.Wrapping? && head.text == layer + sep + Message(head.cause)
    requires layer + sep != [] && OnlyAtEnd(layer + sep, Message(head.cause))
    ensures SanitizeAppend(chain, head, head.cause, c) == chain + [SanitizeString(layer + sep, c)]
  {
    assert Message(head) == (layer + sep) + Message(head.cause);
    RemoveFirstOfSuffix(layer + sep, Message(head.cause));
    assert RemoveEqualPart(head, head.cause) == layer + sep;
  }

  /** One step of `Walk` once the appended text is known. */
  lemma WalkStep(chain: seq<string>, head: Error, delta: string, c: SanitizeConfig)
    requires Unwrappable(head) && SanitizeAppend(chain, head, Unwrap(head), c) == chain + [delta]
    ensures Unwrappable(Unwrap(head)) ==>
      Walk(chain, head, Unwrap(head), c) == Walk(chain + [delta], Unwrap(head), Unwrap(Unwrap(head)), c)
    ensures !Unwrappable(Unwrap(head)) ==>
      Walk(chain, head, Unwrap(head), c) == chain + [delta] + [SanitizeString(Message(Unwrap(head)), c)]
  {
  }

  /** Regrouping of the walk's pieces. */
  lemma Regroup<T>(chain: seq<T>, delta: T, rest: seq<T>, last: seq<T>)
    ensures chain + ([delta] + rest) + last == (chain + [delta]) + rest + last
  {
  }

  /**
   * Walking a layered error appends every layer with its separator,
   * sanitized, and then the bottom text.
   */
  lemma {:induction false} WalkLayered(chain: seq<string>, head: Error, layers: seq<string>, bottom: string, sep: string, c: SanitizeConfig)
    requires |layers| >= 1 && LayersOf(head, layers, bottom, sep)
    ensures Walk(chain, head, Unwrap(head), c) == chain + Sanitized(layers, sep, c) + [SanitizeString(bottom, c)]
    decreases |layers|
  {
    var next := head.cause;
    var delta := SanitizeString(layers[0] + sep, c);
    LayerDelta(chain, head, layers[0], sep, c);
    WalkStep(chain, head, delta, c);
    var rest := Sanitized(layers[1..], sep, c);
    var last := [SanitizeString(bottom, c)];
    assert Sanitized(layers, sep, c) == [delta] + rest;
    Regroup(chain, delta, rest, last);
    if |layers| == 1 {
      assert next == Plain(bottom) && rest == [];
      assert (chain + [delta]) + rest == chain + [delta];
    } else {
      WalkLayered(chain + [delta], next, layers[1..], bottom, sep, c);
    }
  }

  /** The walk sees an unwrappable error only through its message and its cause. */
  lemma WalkCongruent(chain: seq<string>, a: Error, b: Error, c: SanitizeConfig)
    requires Unwrappable(a) && Unwrappable(b)
    requires Message(a) == Message(b) && Unwrap(a) == Unwrap(b)
    ensures Walk(chain, a, Unwrap(a), c) == Walk(chain, b, Unwrap(b), c)
  {
    assert SanitizeAppend(chain, a, Unwrap(a), c) == SanitizeAppend(chain, b, Unwrap(b), c);
  }

  /** A chain of layers is its own top layer. */
  lemma LayersOfTop(e: Error, layers: seq<string>, bottom: string, sep: string)
    requires |layers| >= 1 && LayersOf(e, layers, bottom, sep)
    ensures TopLayerOf(e, layers, bottom, sep)
  {
  }

  /** Above the root `Chain` is the walk from the empty chain, reversed unless `WithNormalOrder` is given. */
  lemma ChainIsWalk(e: Error, opts: seq<SanitizeOpt>)
    requires Unwrappable(e)
    ensures var c := ConfigOf(opts);
      var walk := Walk([], e, Unwrap(e), c);
      Chain(e, opts) == if c.noInverseOrder then walk else Reversed(walk)
  {
  }

  /** `Chain` over an error made of layers, under any options. */
  lemma ChainOfLayers(e: Error, layers: seq<string>, bottom: string, sep: string, opts: seq<SanitizeOpt>)
    requires |layers| >= 1 && LayersOf(e, layers, bottom, sep)
    ensures var c := ConfigOf(opts);
      var walk := Sanitized(layers, sep, c) + [SanitizeString(bottom, c)];
      Chain(e, opts) == if c.noInverseOrder then walk else Reversed(walk)
  {
    assert e.Wrapping?;
    ChainIsWalk(e, opts);
    WalkLayeredFromEmpty(e, layers, bottom, sep, ConfigOf(opts));
  }

  /** `WalkLayered` from the empty chain, as `Chain` starts it. */
  lemma WalkLayeredFromEmpty(head: Error, layers: seq<string>, bottom: string, sep: string, c: SanitizeConfig)
    requires |layers| >= 1 && LayersOf(head, layers, bottom, sep)
    ensures Walk([], head, Unwrap(head), c) == Sanitized(layers, sep, c) + [SanitizeString(bottom, c)]
  {
    WalkLayered([], head, layers, bottom, sep, c);
    EmptyAppend(Sanitized(layers, sep, c), [SanitizeString(bottom, c)]);
  }

  /** Appending to the empty sequence first changes nothing. */
  lemma EmptyAppend<T>(a: seq<T>, b: seq<T>)
    ensures [] + a + b == a + b
  {
    assert [] + a == a;
  }

  /** `Chain` sees an unwrappable error only through its message and its cause. */
  lemma ChainCongruent(a: Error, b: Error, opts: seq<SanitizeOpt>)
    requires Unwrappable(a) && Unwrappable(b)
    requires Message(a) == Message(b) && Unwrap(a) == Unwrap(b)
    ensures Chain(a, opts) == Chain(b, opts)
  {
    ChainIsWalk(a, opts);
    ChainIsWalk(b, opts);
    WalkCongruent([], a, b, ConfigOf(opts));
  }

  /** `Chain` over a top layer, under any options. */
  lemma ChainOfTopLayer(e: Error, layers: seq<string>, bottom: string, sep: string, opts: seq<SanitizeOpt>)
    requires TopLayerOf(e, layers, bottom, sep)
    ensures var c := ConfigOf(opts);
      var walk := Sanitized(layers, sep, c) + [SanitizeString(bottom, c)];
      Chain(e, opts) == if c.noInverseOrder then walk else Reversed(walk)
  {
    var link := Wrapping(Message(e), Unwrap(e));
    assert LayersOf(link, layers, bottom, sep);
    ChainCongruent(e, link, opts);
    ChainOfLayers(link, layers, bottom, sep, opts);
  }

  /** Layers that trimming the separator leaves intact. */
  predicate CleanLayers(layers: seq<string>, bottom: string, sep: string)
  {
    sep != []
    && (forall i :: 0 <= i < |layers| ==> !HasPrefix(layers[i], sep))
    && !HasPrefix(bottom, sep) && !HasSuffix(bottom, sep)
  }

  /** `trimCustom(text + sep, sep)` gives the text back when it does not start with `sep`. */
  lemma TrimCustomLayer(text: string, sep: string)
    requires !HasPrefix(text, sep)
    ensures TrimCustom(text + sep, sep) == text
  {
    var s := text + sep;
    assert s[|s| - |sep|..] == sep;
    var u := TrimSuffix(s, sep);
    TrimSuffixDrops(s, sep);
    assert u + sep == text + sep;
    assert u == (u + sep)[..|u|] == (text + sep)[..|text|] == text;
  }

  /** Under `WithTrimCustom(sep)` clean layers come out unchanged. */
  lemma SanitizedClean(layers: seq<string>, bottom: string, sep: string)
    requires CleanLayers(layers, bottom, sep)
    ensures Sanitized(layers, sep, ConfigOf([WithTrimCustom(sep)])) == layers
    ensures SanitizeString(bottom, ConfigOf([WithTrimCustom(sep)])) == bottom
  {
    var c := ConfigOf([WithTrimCustom(sep)]);
    assert [WithTrimCustom(sep)][..0] == [];
    assert c == SanitizeConfig(false, false, Some(sep), false);
    forall i | 0 <= i < |layers|
      ensures Sanitized(layers, sep, c)[i] == layers[i]
    {
      TrimCustomLayer(layers[i], sep);
    }
  }

  /**
   * Round trip: the layers `top1, mid2, ..., botN` joined with `sep` come
   * back from `Chain(err, WithTrimCustom(sep))` as `botN, ..., mid2, top1`,
   * and in their own order under `WithNormalOrder`.
   */
  lemma ChainRoundTrip(e: Error, layers: seq<string>, bottom: string, sep: string)
    requires TopLayerOf(e, layers, bottom, sep) && CleanLayers(layers, bottom, sep)
    ensures Chain(e, [WithTrimCustom(sep)]) == Reversed(layers + [bottom])
    ensures Chain(e, [WithTrimCustom(sep), WithNormalOrder]) == layers + [bottom]
  {
    var opts := [WithTrimCustom(sep)];
    var normal := opts + [WithNormalOrder];
    assert normal == [WithTrimCustom(sep), WithNormalOrder];
    assert Chain(e, opts) == Reversed(layers + [bottom]) by {
      SanitizedClean(layers, bottom, sep);
      ChainOfTopLayer(e, layers, bottom, sep, opts);
    }
    assert Chain(e, normal) == layers + [bottom] by {
      DefaultOrderIsReverseOfNormal(e, opts);
      ReversedTwice(Chain(e, normal));
      ReversedTwice(layers + [bottom]);
    }
  }

  /** The round trip for the tests' `genWrappedErrWith` errors. */
  lemma LayeredRoundTrip(layers: seq<string>, bottom: string, sep: string)
    requires |layers| >= 1 && Separable(layers, bottom, sep) && CleanLayers(layers, bottom, sep)
    ensures Chain(Layered(layers, bottom, sep), [WithTrimCustom(sep)]) == Reversed(layers + [bottom])
    ensures Chain(Layered(layers, bottom, sep), [WithTrimCustom(sep), WithNormalOrder]) == layers + [bottom]
  {
    LayeredLayers(layers, bottom, sep);
    LayersOfTop(Layered(layers, bottom, sep), layers, bottom, sep);
    ChainRoundTrip(Layered(layers, bottom, sep), layers, bottom, sep);
  }

  /**
   * The emptiness test comes before sanitizing: a layer `x:` over `x` has
   * the raw delta `:`, which trims to the empty string and is still
   * appended.
   */
  lemma EmptyAfterTrimIsKept(x: string)
    ensures Chain(Wrapping(x + ":", Plain(x)), [WithTrimColons]) == [TrimColons(x), ""]
  {
    var e := Wrapping(x + ":", Plain(x));
    ChainIsWalk(e, [WithTrimColons]);
    ColonLayerWalk(x);
    ReversedPair("", TrimColons(x));
  }

  /** The walk over `x:` above `x`, trimming colons, outermost first. */
  lemma ColonLayerWalk(x: string)
    ensures Walk([], Wrapping(x + ":", Plain(x)), Plain(x), ConfigOf([WithTrimColons])) == ["", TrimColons(x)]
  {
    var e := Wrapping(x + ":", Plain(x));
    var c := ConfigOf([WithTrimColons]);
    ColonsOnly();
    ColonDelta(x);
    assert SanitizeString(":", c) == "" by {
      assert HasSuffix(":", ":");
    }
    assert SanitizeString(x, c) == TrimColons(x);
    assert SanitizeAppend([], e, Plain(x), c) == [""];
  }

  /** `WithTrimColons` alone configures the colon trim and nothing else. */
  lemma ColonsOnly()
    ensures ConfigOf([WithTrimColons]) == SanitizeConfig(false, true, None, false)
  {
    assert [WithTrimColons][..0] == [];
  }

  /** The text that `x:` adds to `x` is the colon. */
  lemma ColonDelta(x: string)
    ensures RemoveEqualPart(Wrapping(x + ":", Plain(x)), Plain(x)) == ":"
  {
    assert (x + ":")[..|x|] == x;
    assert OccursAt(x + ":", x, 0);
  }

  /** Concatenation is associative. */
  lemma AppendAssoc<T>(a: seq<T>, b: seq<T>, c: seq<T>)
    ensures a + (b + c) == a + b + c
  {
  }

  /** A single element read backwards. */
  lemma ReversedSingle<T>(a: T)
    ensures Reversed([a]) == [a]
  {
    assert [a][1..] == [];
  }

  /** A pair read backwards. */
  lemma ReversedPair<T>(a: T, b: T)
    ensures Reversed([a, b]) == [b, a]
  {
    assert [a, b][1..] == [b];
  }

  /** Text with no white space at either end. */
  predicate Unpadded(x: string)
  {
    x == [] || (!IsSpace(x[0]) && !IsSpace(x[|x| - 1]))
  }

  /**
   * Layers joined with ": " that `WithTrimSpaces` and `WithTrimColons`
   * give back unchanged: no layer is empty, padded or starts with a colon,
   * and the bottom is neither padded nor has a colon at either end.
   */
  predicate SpaceColonClean(layers: seq<string>, bottom: string)
  {
    (forall i :: 0 <= i < |layers| ==> layers[i] != [] && Unpadded(layers[i]) && layers[i][0] != ':')
    && Unpadded(bottom) && (bottom == [] || (bottom[0] != ':' && bottom[|bottom| - 1] != ':'))
  }

  /** `WithTrimSpaces` then `WithTrimColons` configures both trims and nothing else. */
  lemma SpacesAndColons()
    ensures ConfigOf([WithTrimSpaces, WithTrimColons]) == SanitizeConfig(true, true, None, false)
  {
    assert [WithTrimSpaces, WithTrimColons][..1] == [WithTrimSpaces];
    assert [WithTrimSpaces][..0] == [];
  }

  /** The space trim of `x + ": "` keeps the colon, which the colon trim then removes. */
  lemma SpaceColonLayer(x: string)
    requires x != [] && Unpadded(x) && x[0] != ':'
    ensures TrimSpaces(x + ": ") == x + ":"
    ensures SanitizeString(x + ": ", SanitizeConfig(true, true, None, false)) == x
  {
    var s := x + ": ";
    TrimSpaceOfPadded(s, |x| + 1);
    assert s[..|x| + 1] == x + ":";
    var t := x + ":";
    assert HasSuffix(t, ":") by {
      assert t[|t| - 1..] == ":";
    }
    assert TrimSuffix(t, ":") == x by {
      assert t[..|x|] == x;
    }
    assert x[..1] != ":" by {
      assert x[..1][0] == x[0];
    }
  }

  /**
   * The order of `sanitizeString` decides the result: trimming colons
   * before spaces would leave the colon of `x + ": "` in place.
   */
  lemma ColonsBeforeSpacesKeepColon(x: string)
    requires x != [] && Unpadded(x) && x[0] != ':'
    ensures TrimSpaces(TrimColons(x + ": ")) == x + ":"
  {
    var s := x + ": ";
    assert s[|s| - 1..] != ":" by {
      assert s[|s| - 1..][0] == s[|s| - 1];
    }
    assert s[..1] != ":" by {
      assert s[..1][0] == s[0];
    }
    SpaceColonLayer(x);
  }

  /** A bottom text that is not padded and has no colon at either end survives both trims. */
  lemma SpaceColonBottom(b: string)
    requires Unpadded(b) && (b == [] || (b[0] != ':' && b[|b| - 1] != ':'))
    ensures SanitizeString(b, SanitizeConfig(true, true, None, false)) == b
  {
    if b != [] {
      TrimSpaceOfPadded(b, |b|);
      assert b[..|b|] == b;
      assert b[..1] != ":" by {
        assert b[..1][0] == b[0];
      }
      assert b[|b| - 1..] != ":" by {
        assert b[|b| - 1..][0] == b[|b| - 1];
      }
    }
  }

  /**
   * The round trip of the test fixtures joined with ": " under
   * `WithTrimSpaces` and `WithTrimColons`: the layers come back as they
   * were, root first.
   */
  lemma SpaceColonRoundTrip(layers: seq<string>, bottom: string)
    requires |layers| >= 1 && Separable(layers, bottom, ": ") && SpaceColonClean(layers, bottom)
    ensures Chain(Layered(layers, bottom, ": "), [WithTrimSpaces, WithTrimColons]) == Reversed(layers + [bottom])
  {
    SpacesAndColons();
    LayeredLayers(layers, bottom, ": ");
    ChainOfLayers(Layered(layers, bottom, ": "), layers, bottom, ": ", [WithTrimSpaces, WithTrimColons]);
    SanitizedSpaceColon(layers, bottom);
    SpaceColonBottom(bottom);
  }

  /** Each clean layer joined with ": " comes out of both trims as it was. */
  lemma {:induction false} SanitizedSpaceColon(layers: seq<string>, bottom: string)
    requires SpaceColonClean(layers, bottom)
    ensures Sanitized(layers, ": ", SanitizeConfig(true, true, None, false)) == layers
    decreases |layers|
  {
    if layers != [] {
      var rest := layers[1..];
      assert SpaceColonClean(rest, bottom) by {
        forall i | 0 <= i < |rest|
          ensures rest[i] != [] && Unpadded(rest[i]) && rest[i][0] != ':'
        {
          assert rest[i] == layers[i + 1];
        }
      }
      SpaceColonLayer(layers[0]);
      SanitizedSpaceColon(rest, bottom);
      assert layers == [layers[0]] + rest;
    }
  }

  /** Each layer's delta sanitizes to the matching element of `out`, so together they give `out`. */
  lemma {:induction false} SanitizedEach(layers: seq<string>, sep: string, c: SanitizeConfig, out: seq<string>)
    requires |out| == |layers|
    requires forall i :: 0 <= i < |layers| ==> SanitizeString(layers[i] + sep, c) == out[i]
    ensures Sanitized(layers, sep, c) == out
    decreases |layers|
  {
    if layers != [] {
      SanitizedEachTail(layers, sep, c, out);
      SanitizedEach(layers[1..], sep, c, out[1..]);
      assert out == [out[0]] + out[1..];
    }
  }

  /** The premise of `SanitizedEach` holds for the tails. */
  lemma SanitizedEachTail(layers: seq<string>, sep: string, c: SanitizeConfig, out: seq<string>)
    requires |out| == |layers| > 0
    requires forall i :: 0 <= i < |layers| ==> SanitizeString(layers[i] + sep, c) == out[i]
    ensures forall i :: 0 <= i < |layers| - 1 ==> SanitizeString(layers[1..][i] + sep, c) == out[1..][i]
  {
    forall i | 0 <= i < |layers| - 1
      ensures SanitizeString(layers[1..][i] + sep, c) == out[1..][i]
    {
      assert layers[1..][i] == layers[i + 1];
    }
  }

  /** `WithTrimColons` alone configures the colon trim and nothing else. */
  lemma ColonsOnlyConfig()
    ensures ConfigOf([WithTrimColons]) == SanitizeConfig(false, true, None, false)
  {
    assert [WithTrimColons][..0] == [];
  }

  /** `WithTrimSpaces` alone configures the space trim and nothing else. */
  lemma SpacesOnlyConfig()
    ensures ConfigOf([WithTrimSpaces]) == SanitizeConfig(true, false, None, false)
  {
    assert [WithTrimSpaces][..0] == [];
  }

  /**
   * The round trip of the test fixtures joined with ":" under
   * `WithTrimColons` alone: layers that do not start with a colon, over a
   * bottom without a colon at either end, come back root first.
   */
  lemma ColonRoundTrip(layers: seq<string>, bottom: string)
    requires |layers| >= 1 && Separable(layers, bottom, ":") && CleanLayers(layers, bottom, ":")
    ensures Chain(Layered(layers, bottom, ":"), [WithTrimColons]) == Reversed(layers + [bottom])
  {
    ColonsOnlyConfig();
    LayeredLayers(layers, bottom, ":");
    ChainOfLayers(Layered(layers, bottom, ":"), layers, bottom, ":", [WithTrimColons]);
    ColonLayers(layers, bottom);
    SanitizedEach(layers, ":", SanitizeConfig(false, true, None, false), layers);
  }

  /** Under the colon trim alone every clean layer joined with ":" comes out as it was. */
  lemma ColonLayers(layers: seq<string>, bottom: string)
    requires CleanLayers(layers, bottom, ":")
    ensures forall i :: 0 <= i < |layers| ==>
      SanitizeString(layers[i] + ":", SanitizeConfig(false, true, None, false)) == layers[i]
  {
    forall i | 0 <= i < |layers|
      ensures SanitizeString(layers[i] + ":", SanitizeConfig(false, true, None, false)) == layers[i]
    {
      TrimCustomLayer(layers[i], ":");
    }
  }

  /**
   * The round trip of the test fixtures joined with " " under
   * `WithTrimSpaces` alone: layers that are not empty and not padded, over
   * a bottom that is not padded, come back root first.
   */
  lemma SpaceRoundTrip(layers: seq<string>, bottom: string)
    requires |layers| >= 1 && Separable(layers, bottom, " ")
    requires forall i :: 0 <= i < |layers| ==> layers[i] != [] && Unpadded(layers[i])
    requires Unpadded(bottom)
    ensures Chain(Layered(layers, bottom, " "), [WithTrimSpaces]) == Reversed(layers + [bottom])
  {
    SpacesOnlyConfig();
    LayeredLayers(layers, bottom, " ");
    ChainOfLayers(Layered(layers, bottom, " "), layers, bottom, " ", [WithTrimSpaces]);
    SpaceLayers(layers);
    SanitizedEach(layers, " ", SanitizeConfig(true, false, None, false), layers);
    if bottom != [] {
      TrimSpaceOfPadded(bottom, |bottom|);
      assert bottom[..|bottom|] == bottom;
    }
  }

  /** Under the space trim alone every layer that is not empty or padded, joined with " ", comes out as it was. */
  lemma SpaceLayers(layers: seq<string>)
    requires forall i :: 0 <= i < |layers| ==> layers[i] != [] && Unpadded(layers[i])
    ensures forall i :: 0 <= i < |layers| ==>
      SanitizeString(layers[i] + " ", SanitizeConfig(true, false, None, false)) == layers[i]
  {
    forall i | 0 <= i < |layers|
      ensures SanitizeString(layers[i] + " ", SanitizeConfig(true, false, None, false)) == layers[i]
    {
      var s := layers[i] + " ";
      TrimSpaceOfPadded(s, |layers[i]|);
      assert s[..|layers[i]|] == layers[i];
    }
  }

  /** Each text with `pre` in front, as `genWrappedErrWith` writes its layers. */
  function Prefixed(texts: seq<string>, pre: string): (r: seq<string>)
  {
    seq(|texts|, i requires 0 <= i < |texts| => pre + texts[i])
  }

  /** `trimCustom` takes a `toTrim` off both ends of any text it encloses. */
  lemma TrimCustomEnclosed(x: string, toTrim: string)
    ensures TrimCustom(toTrim + x + toTrim, toTrim) == x
  {
    var s := toTrim + x + toTrim;
    assert HasSuffix(s, toTrim) by {
      assert s[|s| - |toTrim|..] == toTrim;
    }
    var u := TrimSuffix(s, toTrim);
    assert u == toTrim + x by {
      assert s[..|s| - |toTrim|] == toTrim + x;
    }
    assert u[..|toTrim|] == toTrim && u[|toTrim|..] == x;
  }

  /**
   * The round trip of the test fixture that writes `toTrim` both before
   * each layer and as the separator, under `WithTrimCustom(toTrim)`: the
   * texts come back without it, root first, whatever they hold, provided
   * the bottom does not end with `toTrim`.
   */
  lemma EnclosedCustomRoundTrip(texts: seq<string>, b: string, toTrim: string)
    requires |texts| >= 1 && Separable(Prefixed(texts, toTrim), toTrim + b, toTrim)
    requires !HasSuffix(toTrim + b, toTrim)
    ensures Chain(Layered(Prefixed(texts, toTrim), toTrim + b, toTrim), [WithTrimCustom(toTrim)]) == Reversed(texts + [b])
  {
    var layers := Prefixed(texts, toTrim);
    var c := SanitizeConfig(false, false, Some(toTrim), false);
    assert ConfigOf([WithTrimCustom(toTrim)]) == c by {
      assert [WithTrimCustom(toTrim)][..0] == [];
    }
    LayeredLayers(layers, toTrim + b, toTrim);
    ChainOfLayers(Layered(layers, toTrim + b, toTrim), layers, toTrim + b, toTrim, [WithTrimCustom(toTrim)]);
    EnclosedLayers(texts, toTrim);
    SanitizedEach(layers, toTrim, c, texts);
    var s := toTrim + b;
    assert s[..|toTrim|] == toTrim && s[|toTrim|..] == b;
  }

  /** Under `WithTrimCustom(toTrim)` every layer written `toTrim + text + toTrim` comes out as its text. */
  lemma EnclosedLayers(texts: seq<string>, toTrim: string)
    ensures var layers := Prefixed(texts, toTrim);
      forall i :: 0 <= i < |layers| ==>
        SanitizeString(layers[i] + toTrim, SanitizeConfig(false, false, Some(toTrim), false)) == texts[i]
  {
    var layers := Prefixed(texts, toTrim);
    forall i | 0 <= i < |layers|
      ensures SanitizeString(layers[i] + toTrim, SanitizeConfig(false, false, Some(toTrim), false)) == texts[i]
    {
      TrimCustomEnclosed(texts[i], toTrim);
    }
  }

  /**
   * Under both trims, a layer of the prepended fixture, " :" then the text
   * then ": ", comes back as the text, whatever it holds.
   */
  lemma PrependedLayer(x: string)
    ensures SanitizeString(" :" + x + ": ", SanitizeConfig(true, true, None, false)) == x
  {
    var s := " :" + x + ": ";
    TrimSpaceBetween(s, 1, |s| - 1);
    assert s[1..|s| - 1] == ":" + x + ":";
    TrimCustomEnclosed(x, ":");
  }

  /**
   * The round trip of the test fixture that prepends " :" to every layer
   * and joins them with ": ", under `WithTrimSpaces` and `WithTrimColons`:
   * the texts come back root first, provided the bottom text ends with
   * neither white space nor a colon.
   */
  lemma PrependedSpaceColonRoundTrip(texts: seq<string>, b: string)
    requires |texts| >= 1 && Separable(Prefixed(texts, " :"), " :" + b, ": ")
    requires b == [] || (!IsSpace(b[|b| - 1]) && b[|b| - 1] != ':')
    ensures Chain(Layered(Prefixed(texts, " :"), " :" + b, ": "), [WithTrimSpaces, WithTrimColons]) == Reversed(texts + [b])
  {
    var layers := Prefixed(texts, " :");
    var c := SanitizeConfig(true, true, None, false);
    SpacesAndColons();
    LayeredLayers(layers, " :" + b, ": ");
    ChainOfLayers(Layered(layers, " :" + b, ": "), layers, " :" + b, ": ", [WithTrimSpaces, WithTrimColons]);
    PrependedLayers(texts);
    SanitizedEach(layers, ": ", c, texts);
    PrependedBottom(b);
  }

  /** Under both trims every layer of the prepended fixture, joined with ": ", comes out as its text. */
  lemma PrependedLayers(texts: seq<string>)
    ensures var layers := Prefixed(texts, " :");
      forall i :: 0 <= i < |layers| ==>
        SanitizeString(layers[i] + ": ", SanitizeConfig(true, true, None, false)) == texts[i]
  {
    var layers := Prefixed(texts, " :");
    forall i | 0 <= i < |layers|
      ensures SanitizeString(layers[i] + ": ", SanitizeConfig(true, true, None, false)) == texts[i]
    {
      assert layers[i] + ": " == " :" + texts[i] + ": ";
      PrependedLayer(texts[i]);
    }
  }

  /** The bottom of the prepended fixture, " :" then the text, comes back as the text. */
  lemma PrependedBottom(b: string)
    requires b == [] || (!IsSpace(b[|b| - 1]) && b[|b| - 1] != ':')
    ensures SanitizeString(" :" + b, SanitizeConfig(true, true, None, false)) == b
  {
    var s := " :" + b;
    TrimSpaceBetween(s, 1, |s|);
    var t := ":" + b;
    assert s[1..] == t;
    if b != [] {
      assert t[|t| - 1..] != ":" by {
        assert t[|t| - 1..][0] == t[|t| - 1];
      }
      assert t[..1] == ":" && t[1..] == b;
    } else {
      assert t == ":";
    }
  }

  /** A layer whose message equals its cause's adds nothing: only the terminal text remains. */
  lemma RepeatedLayerIsDropped(text: string, opts: seq<SanitizeOpt>)
    ensures Chain(Wrapping(text, Plain(text)), opts) == [SanitizeString(text, ConfigOf(opts))]
  {
    var c := ConfigOf(opts);
    assert Walk([], Wrapping(text, Plain(text)), Plain(text), c) == [SanitizeString(text, c)];
  }
}
