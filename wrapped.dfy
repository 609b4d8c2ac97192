/**
 * The package type `wrapped` (wrapped.go): a kind plus a nested error that
 * carries the context, the constructor `newWrapped` with its normalisation
 * of errors that already wrap something, and the `WithErr` option
 * (error.go) that the constructor applies.
 *
 * The separator that `separator()` reads from the package configuration is
 * the parameter `sep`.
 */
module WrappedErrors {
  import opened Wrappers
  import opened GoErrors
  import opened Chains

  /** `Option`, of which the package defines the one constructor `WithErr(err)`. */
  datatype ErrOption = WithErr(err: Error)

  /** A `wrapped` while `newWrapped` builds it: `err` is nil until the first `WithErr`. */
  datatype Draft = Draft(kind: Kind, err: Option<Error>)

  /**
   * `wrapped.Add`: the kind is copied unchanged and the new nested error is
   * `fmt.Errorf("%v%s%w", x, separator, w.err)`.
   */
  function Add(w: Wrapped, x: Error): (r: Wrapped)
    ensures r.kind == w.kind
    ensures Unwrappable(r.err) && Unwrap(r.err) == w.err
    ensures Message(r.err) == Message(x) + w.kind.separator + Message(w.err)
    ensures Depth(r.err) == Depth(w.err) + 1 && Root(r.err) == Root(w.err)
  {
    Wrapped(Kind(w.kind.err, w.kind.separator), Wrapping(Message(x) + w.kind.separator + Message(w.err), w.err))
  }

  /**
   * The closure `WithErr(err)` returns: it sets the nested error when there
   * is none yet, and otherwise adds `err` on top of it with `Add`.
   */
  function ApplyOption(d: Draft, o: ErrOption): (r: Draft)
    ensures r.kind == d.kind && r.err.Some?
    ensures d.err.None? ==> r.err.value == o.err
    ensures d.err.Some? ==>
      Unwrappable(r.err.value) && Unwrap(r.err.value) == d.err.value
      && Message(r.err.value) == Message(o.err) + d.kind.separator + Message(d.err.value)
  {
    match d.err
    case None => Draft(d.kind, Some(o.err))
    case Some(e) =>
      var w := Add(Wrapped(d.kind, e), o.err);
      Draft(w.kind, Some(w.err))
  }

  /**
   * The options applied in order, the first one innermost: the nested error
   * is set by the first `WithErr` and each later one adds a link on top.
   */
  function ApplyAll(d: Draft, opts: seq<ErrOption>): (r: Draft)
    ensures r.kind == d.kind
    ensures r.err.None? <==> d.err.None? && opts == []
    ensures d.err.Some? ==> Depth(r.err.value) == Depth(d.err.value) + |opts|
    ensures d.err.None? && opts != [] ==> Depth(r.err.value) == Depth(opts[0].err) + |opts| - 1
  {
    if opts == [] then d
    else ApplyOption(ApplyAll(d, opts[..|opts| - 1]), opts[|opts| - 1])
  }

  /** One `WithErr(errors.New(t))` for each text `t`, in order. */
  function WithErrs(texts: seq<string>): (r: seq<ErrOption>)
    ensures |r| == |texts|
    ensures forall i :: 0 <= i < |texts| ==> r[i] == WithErr(Plain(texts[i]))
  {
    seq(|texts|, i requires 0 <= i < |texts| => WithErr(Plain(texts[i])))
  }

  /**
   * `newWrappedFromWrappedError`: an error with an `Unwrap` method whose
   * chain, trimmed of the separator, has more than one element is replaced
   * by the last element of that chain, and every other element becomes a
   * `WithErr` in front of the given options.
   */
  function Normalize(k: Error, opts: seq<ErrOption>, sep: string): (r: (Error, seq<ErrOption>))
    ensures |opts| <= |r.1| <= |opts| + Depth(k) && r.1[|r.1| - |opts|..] == opts
    ensures r.0 == k <==> r.1 == opts
    ensures r.0 != k ==> Unwrappable(k) && r.0.Plain? && |r.1| > |opts|
    ensures !Unwrappable(k) ==> r == (k, opts)
  {
    if Unwrappable(k) then
      var chain := Chain(k, [WithTrimCustom(sep)]);
      if |chain| > 1 then
        (Plain(chain[|chain| - 1]), WithErrs(chain[..|chain| - 1]) + opts)
      else (k, opts)
    else (k, opts)
  }

  /**
   * What `Normalize` does for every input: an error with `Unwrap` keeps
   * itself and the options exactly when its chain has at most one element;
   * when it is replaced, its chain is the texts of the new `WithErr`
   * options, in order, followed by the new kind's text.
   */
  lemma NormalizeSplitsChain(k: Error, opts: seq<ErrOption>, sep: string)
    ensures var r := Normalize(k, opts, sep);
      Unwrappable(k) ==> (r == (k, opts) <==> |Chain(k, [WithTrimCustom(sep)])| <= 1)
    ensures var r := Normalize(k, opts, sep);
      r.0 != k ==> exists front: seq<string> ::
        r.1 == WithErrs(front) + opts && Chain(k, [WithTrimCustom(sep)]) == front + [r.0.text]
  {
    if Unwrappable(k) {
      var chain := Chain(k, [WithTrimCustom(sep)]);
      if |chain| > 1 {
        var front := chain[..|chain| - 1];
        assert chain == front + [chain[|chain| - 1]];
      }
    }
  }

  /** The loop of `newWrappedFromWrappedError` that makes one `WithErr` per chain element. */
  method ErrOptions(chain: seq<string>) returns (newOpts: seq<ErrOption>)
    ensures newOpts == WithErrs(chain)
  {
    newOpts := [];
    for i := 0 to |chain|
      invariant newOpts == WithErrs(chain[..i])
    {
      newOpts := newOpts + [WithErr(Plain(chain[i]))];
    }
    assert chain[..|chain|] == chain;
  }

  /** `newWrappedFromWrappedError` as the Go code runs it. */
  method NewWrappedFromWrappedError(k: Error, opts: seq<ErrOption>, sep: string) returns (k': Error, opts': seq<ErrOption>)
    ensures (k', opts') == Normalize(k, opts, sep)
  {
    k', opts' := k, opts;
    if Unwrappable(k) {
      var chain := BuildChain(k, [WithTrimCustom(sep)]);
      if |chain| > 1 {
        k' := Plain(chain[|chain| - 1]);
        chain := chain[..|chain| - 1];
        var newOpts := ErrOptions(chain);
        opts' := newOpts + opts;
      }
    }
  }

  /** `newWrapped`, as a function of the kind error, the options and the separator. */
  function NewWrappedOf(k: Error, opts: seq<ErrOption>, sep: string): (r: Draft)
    ensures r.kind == Kind(Normalize(k, opts, sep).0, sep)
    ensures r.err.None? <==> Normalize(k, opts, sep).1 == []
    ensures r.err.None? ==> Message(KindError(r.kind)) == Message(k)
  {
    var (k', opts') := Normalize(k, opts, sep);
    ApplyAll(Draft(NewKind(k', sep), None), opts')
  }

  /** An error without `Unwrap` and one `WithErr(x)`: the kind keeps the error and `x` is nested. */
  lemma NewWrappedOfOne(k: Error, x: Error, sep: string)
    requires !Unwrappable(k)
    ensures NewWrappedOf(k, [WithErr(x)], sep) == Draft(Kind(k, sep), Some(x))
  {
    var opts := [WithErr(x)];
    assert Normalize(k, opts, sep) == (k, opts);
    assert ApplyAll(Draft(NewKind(k, sep), None), opts) == ApplyOption(Draft(NewKind(k, sep), None), WithErr(x)) by {
      assert opts[..0] == [];
    }
  }

  /** The loop of `newWrapped` that runs every option on the value built so far. */
  method ApplyOptions(d: Draft, opts: seq<ErrOption>) returns (w: Draft)
    ensures w == ApplyAll(d, opts)
  {
    w := d;
    for i := 0 to |opts|
      invariant w == ApplyAll(d, opts[..i])
    {
      assert opts[..i + 1][..i] == opts[..i];
      w := ApplyOption(w, opts[i]);
    }
    assert opts[..|opts|] == opts;
  }

  /** `newWrapped`: normalise, make the kind, then run the options in order. */
  method NewWrapped(k: Error, opts: seq<ErrOption>, sep: string) returns (w: Draft)
    ensures w == NewWrappedOf(k, opts, sep)
  {
    var k', opts' := NewWrappedFromWrappedError(k, opts, sep);
    w := ApplyOptions(Draft(NewKind(k', sep), None), opts');
  }

  /**
   * `wrapped.Sanitize`: the kind alone. What it drops is exactly the
   * separator and the nested error's message.
   */
  function Sanitize(w: Wrapped): (g: Error)
    ensures g == KindError(w.kind)
    ensures IsGrr(g) && !Unwrappable(g)
    ensures Message(WrappedError(w)) == Message(g) + w.kind.separator + Message(w.err)
  {
    KindError(w.kind)
  }

  /** `wrapped.Chain`: the chain of the whole value, trimmed of its own separator. */
  function ChainOf(w: Wrapped): (r: seq<string>)
    ensures 1 <= |r| <= Depth(w.err) + 2
    ensures r[0] == TrimCustom(Message(Root(w.err)), w.kind.separator)
  {
    var opts := [WithTrimCustom(w.kind.separator)];
    assert ConfigOf(opts).trimCustom == Some(w.kind.separator);
    ChainEndsAtRoot(WrappedError(w), ConfigOf(opts));
    Chain(WrappedError(w), opts)
  }

  /**
   * What `wrapped.Is` answers: the kind's message is the target's, or some
   * element of the chain is. The whole message is not compared.
   */
  predicate Matches(w: Wrapped, target: Error)
  {
    Message(w.kind.err) == Message(target) || Message(target) in ChainOf(w)
  }

  /** The scan in `wrapped.Is`: does any element of the chain have the target's text? */
  method Contains(chain: seq<string>, text: string) returns (found: bool)
    ensures found <==> text in chain
  {
    for i := 0 to |chain|
      invariant text !in chain[..i]
    {
      if chain[i] == text {
        return true;
      }
    }
    assert chain[..|chain|] == chain;
    return false;
  }

  /** `wrapped.Is`: the kind first, then a scan of the chain. */
  method Is(w: Wrapped, target: Error) returns (b: bool)
    ensures b <==> Matches(w, target)
  {
    if Message(w.kind.err) == Message(target) {
      return true;
    }
    var chain := BuildChain(WrappedError(w), [WithTrimCustom(w.kind.separator)]);
    b := Contains(chain, Message(target));
  }
}
