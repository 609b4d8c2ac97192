/**
 * The chain engine (chain.go): it takes an error apart along its `Unwrap`
 * links into the text each layer added, sanitizes those texts and returns
 * them root first (or outermost first under `WithNormalOrder`).
 */
module Chains {
  import opened Wrappers
  import opened GoErrors
  import opened GoStrings

  /** `SanitizeOpt`: the four option constructors `WithTrimColons`, `WithTrimSpaces`, `WithTrimCustom`, `WithNormalOrder`. */
  datatype SanitizeOpt =
    | WithTrimColons
    | WithTrimSpaces
    | WithTrimCustom(toTrim: string)
    | WithNormalOrder

  /**
   * `sanitizeConfig`. A configured trim function is a flag here, except the
   * custom one, which is the string its closure trims.
   */
  datatype SanitizeConfig = SanitizeConfig(
    trimSpaces: bool,
    trimColons: bool,
    trimCustom: Option<string>,
    noInverseOrder: bool)

  /** `sanitizeConfig{}`: nothing is trimmed and the chain is reversed. */
  const NoSanitizing := SanitizeConfig(false, false, None, false)

  /** What calling one option closure does to the configuration: it sets its own field and no other. */
  function ApplyOpt(c: SanitizeConfig, opt: SanitizeOpt): (r: SanitizeConfig)
    ensures r.trimColons == (c.trimColons || opt.WithTrimColons?)
    ensures r.trimSpaces == (c.trimSpaces || opt.WithTrimSpaces?)
    ensures r.noInverseOrder == (c.noInverseOrder || opt.WithNormalOrder?)
    ensures r.trimCustom == if opt.WithTrimCustom? then Some(opt.toTrim) else c.trimCustom
  {
    match opt
    case WithTrimColons => c.(trimColons := true)
    case WithTrimSpaces => c.(trimSpaces := true)
    case WithTrimCustom(t) => c.(trimCustom := Some(t))
    case WithNormalOrder => c.(noInverseOrder := true)
  }

  /** Calling an option closure a second time changes nothing more. */
  lemma ApplyOptIdempotent(c: SanitizeConfig, opt: SanitizeOpt)
    ensures ApplyOpt(ApplyOpt(c, opt), opt) == ApplyOpt(c, opt)
  {
  }

  /** Two option closures commute unless both set the custom trim. */
  lemma ApplyOptCommutes(c: SanitizeConfig, a: SanitizeOpt, b: SanitizeOpt)
    requires !(a.WithTrimCustom? && b.WithTrimCustom?)
    ensures ApplyOpt(ApplyOpt(c, a), b) == ApplyOpt(ApplyOpt(c, b), a)
  {
  }

  /** The configuration after applying `opts` in order to `sanitizeConfig{}`. */
  function ConfigOf(opts: seq<SanitizeOpt>): (c: SanitizeConfig)
    ensures c.trimColons <==> WithTrimColons in opts
    ensures c.trimSpaces <==> WithTrimSpaces in opts
    ensures c.noInverseOrder <==> WithNormalOrder in opts
    ensures c.trimCustom.None? <==> forall i :: 0 <= i < |opts| ==> !opts[i].WithTrimCustom?
    decreases |opts|
  {
    if opts == [] then NoSanitizing
    else ApplyOpt(ConfigOf(opts[..|opts| - 1]), opts[|opts| - 1])
  }

  /**
   * The custom trim is the one of the last `WithTrimCustom`: each closure
   * overwrites the function an earlier one set.
   */
  lemma {:induction false} LastTrimCustomWins(opts: seq<SanitizeOpt>, i: nat)
    requires i < |opts| && opts[i].WithTrimCustom?
    requires forall j :: i < j < |opts| ==> !opts[j].WithTrimCustom?
    ensures ConfigOf(opts).trimCustom == Some(opts[i].toTrim)
    decreases |opts|
  {
    if i < |opts| - 1 {
      var front := opts[..|opts| - 1];
      assert front[i] == opts[i];
      forall j | i < j < |front|
        ensures !front[j].WithTrimCustom?
      {
        assert front[j] == opts[j];
      }
      LastTrimCustomWins(front, i);
    }
  }

  /** The loop at the top of `Chain` that runs every option on a pointer to the configuration. */
  method Configure(opts: seq<SanitizeOpt>) returns (c: SanitizeConfig)
    ensures c == ConfigOf(opts)
  {
    c := NoSanitizing;
    for i := 0 to |opts|
      invariant c == ConfigOf(opts[..i])
    {
      assert opts[..i + 1][..i] == opts[..i];
      c := ApplyOpt(c, opts[i]);
    }
    assert opts[..|opts|] == opts;
  }

  /** `trimCustom`: at most one trailing, then at most one leading `toTrim` is removed. */
  function TrimCustom(s: string, toTrim: string): (r: string)
    ensures |r| <= |s|
    ensures toTrim == [] ==> r == s
    ensures !HasPrefix(s, toTrim) && !HasSuffix(s, toTrim) ==> r == s
  {
    TrimPrefix(TrimSuffix(s, toTrim), toTrim)
  }

  /**
   * Exactly what `trimCustom` removes: a trailing `toTrim` when there is
   * one, then a leading `toTrim` of what is left when there is one.
   */
  lemma TrimCustomExact(s: string, toTrim: string)
    ensures var back := if HasSuffix(s, toTrim) then |toTrim| else 0;
      var front := if HasPrefix(s[..|s| - back], toTrim) then |toTrim| else 0;
      front <= |s| - back && TrimCustom(s, toTrim) == s[front..|s| - back]
  {
  }

  /** `trimSpaces` */
  function TrimSpaces(s: string): (r: string)
    ensures |r| <= |s|
  {
    TrimSpace(s)
  }

  /** `trimColons`: `trimCustom` with a colon. */
  function TrimColons(s: string): (r: string)
    ensures |r| <= |s|
    ensures !HasPrefix(s, ":") && !HasSuffix(s, ":") ==> r == s
  {
    TrimCustom(s, ":")
  }

  /** Exactly what `trimColons` removes: a trailing colon, then a leading colon of what is left. */
  lemma TrimColonsExact(s: string)
    ensures var back := if HasSuffix(s, ":") then 1 else 0;
      var front := if HasPrefix(s[..|s| - back], ":") then 1 else 0;
      front <= |s| - back && TrimColons(s) == s[front..|s| - back]
  {
    TrimCustomExact(s, ":");
  }

  /** `sanitizeString`: the custom trim, then the space trim, then the colon trim, each if configured. */
  function SanitizeString(s: string, c: SanitizeConfig): (r: string)
    ensures c.trimCustom.None? && !c.trimSpaces && !c.trimColons ==> r == s
    ensures |r| <= |s|
  {
    var afterCustom := if c.trimCustom.Some? then TrimCustom(s, c.trimCustom.value) else s;
    var afterSpaces := if c.trimSpaces then TrimSpaces(afterCustom) else afterCustom;
    if c.trimColons then TrimColons(afterSpaces) else afterSpaces
  }

  /** `removeEqualPartFromError`: the text `current` adds to `next`. */
  function RemoveEqualPart(current: Error, next: Error): (r: string)
    ensures Message(current) == Message(next) ==> r == []
    ensures r == Message(current) || |r| + |Message(next)| == |Message(current)|
  {
    RemoveFirst(Message(current), Message(next))
  }

  /**
   * `sanitizeAppend`, with the slice behind the pointer passed in and
   * returned: the layer's raw delta is appended, sanitized, unless it is
   * empty; a delta that only becomes empty by sanitizing is still appended.
   */
  function SanitizeAppend(chain: seq<string>, current: Error, next: Error, conf: SanitizeConfig): (r: seq<string>)
    ensures |chain| <= |r| <= |chain| + 1 && r[..|chain|] == chain
    ensures |r| == |chain| + 1 <==> RemoveEqualPart(current, next) != []
    ensures |r| == |chain| + 1 ==> r[|chain|] == SanitizeString(RemoveEqualPart(current, next), conf)
    ensures Message(current) == Message(next) ==> r == chain
  {
    var s := RemoveEqualPart(current, next);
    if s != [] then chain + [SanitizeString(s, conf)] else chain
  }

  /**
   * The walk of `Chain`'s loop as a recursive function: `chain` is what the
   * earlier steps appended, `current` is the error being taken apart and
   * `next` its cause. The terminal error's sanitized text always comes last.
   */
  function Walk(chain: seq<string>, current: Error, next: Error, c: SanitizeConfig): (r: seq<string>)
    requires Unwrappable(current) && next == Unwrap(current)
    ensures |chain| < |r| <= |chain| + Depth(current) + 1
    ensures r[..|chain|] == chain
    decreases Depth(current)
  {
    var appended := SanitizeAppend(chain, current, next, c);
    if Unwrappable(next) then
      var r := Walk(appended, next, Unwrap(next), c);
      PrefixOfPrefix(r, appended, chain);
      r
    else
      var last := SanitizeString(Message(next), c);
      PrefixOfAppend(appended, [last], chain);
      appended + [last]
  }

  /** The walk always ends with the sanitized text of the root. */
  lemma {:induction false} WalkEndsAtRoot(chain: seq<string>, current: Error, next: Error, c: SanitizeConfig)
    requires Unwrappable(current) && next == Unwrap(current)
    ensures var r := Walk(chain, current, next, c);
      r[|r| - 1] == SanitizeString(Message(Root(current)), c)
    decreases Depth(current)
  {
    var appended := SanitizeAppend(chain, current, next, c);
    var r := Walk(chain, current, next, c);
    if Unwrappable(next) {
      assert r == Walk(appended, next, Unwrap(next), c);
      WalkEndsAtRoot(appended, next, Unwrap(next), c);
      assert Root(current) == Root(next);
    } else {
      var last := SanitizeString(Message(next), c);
      assert r == appended + [last];
      LastOfAppend(appended, last);
      assert Root(current) == next;
    }
  }

  /** A prefix of a prefix is a prefix. */
  lemma PrefixOfPrefix<T>(a: seq<T>, b: seq<T>, c: seq<T>)
    requires |c| <= |b| <= |a| && a[..|b|] == b && b[..|c|] == c
    ensures a[..|c|] == c
  {
    assert a[..|c|] == a[..|b|][..|c|];
  }

  /** The element appended last is the last one. */
  lemma LastOfAppend<T>(a: seq<T>, x: T)
    ensures (a + [x])[|a + [x]| - 1] == x
  {
  }

  /** Appending keeps every prefix. */
  lemma PrefixOfAppend<T>(a: seq<T>, b: seq<T>, c: seq<T>)
    requires |c| <= |a| && a[..|c|] == c
    ensures (a + b)[..|c|] == c
  {
    assert (a + b)[..|a|] == a;
    PrefixOfPrefix(a + b, a, c);
  }

  /**
   * `unwrapBuildChain`, one step of `Chain`'s loop: with `chain` in and out
   * for the pointer, it returns the next pair and whether to go on.
   */
  method UnwrapBuildChain(current: Error, next: Error, chain: seq<string>, conf: SanitizeConfig)
    returns (current': Option<Error>, next': Option<Error>, hasNext: bool, chain': seq<string>)
    ensures hasNext <==> Unwrappable(current) && Unwrappable(next)
    ensures hasNext ==> current' == Some(Unwrap(current)) && next' == Some(Unwrap(next))
    ensures !hasNext ==> current' == None && next' == None
    ensures !Unwrappable(current) ==> chain' == chain
    ensures Unwrappable(current) && next == Unwrap(current) ==>
      if hasNext then Walk(chain', current'.value, next'.value, conf) == Walk(chain, current, next, conf)
      else chain' == Walk(chain, current, next, conf)
  {
    chain' := chain;
    if Unwrappable(current) && Unwrappable(next) {
      chain' := SanitizeAppend(chain', current, next, conf);
      return Some(Unwrap(current)), Some(Unwrap(next)), true, chain';
    }
    if Unwrappable(current) && !Unwrappable(next) {
      chain' := SanitizeAppend(chain', current, next, conf);
      chain' := chain' + [SanitizeString(Message(next), conf)];
    }
    return None, None, false, chain';
  }

  /** The sequence read backwards. */
  function Reversed<T>(s: seq<T>): (r: seq<T>)
    ensures |r| == |s|
  {
    if s == [] then [] else Reversed(s[1..]) + [s[0]]
  }

  /** Element `k` of the reversed sequence is element `|s| - 1 - k` of the original. */
  lemma {:induction false} ReversedIndex<T>(s: seq<T>)
    ensures forall k :: 0 <= k < |s| ==> Reversed(s)[k] == s[|s| - 1 - k]
  {
    if s != [] {
      var tail := s[1..];
      ReversedIndex(tail);
      forall k | 0 <= k < |s|
        ensures Reversed(s)[k] == s[|s| - 1 - k]
      {
        if k < |s| - 1 {
          assert Reversed(s)[k] == Reversed(tail)[k] == tail[|tail| - 1 - k];
        }
      }
    }
  }

  /** The first element of the reversed sequence is the last of the original. */
  lemma ReversedFirst<T>(s: seq<T>)
    requires s != []
    ensures Reversed(s)[0] == s[|s| - 1]
  {
    ReversedIndex(s);
  }

  /** `reverse`: swaps the slice's elements in place, walking inwards from both ends. */
  method Reverse<T>(a: array<T>)
    modifies a
    ensures a[..] == Reversed(old(a[..]))
  {
    var i, j := 0, a.Length - 1;
    while i < j
      invariant 0 <= i && i + j == a.Length - 1 && i <= j + 1
      invariant forall k :: 0 <= k < i ==> a[k] == old(a[a.Length - 1 - k]) && a[a.Length - 1 - k] == old(a[k])
      invariant forall k :: i <= k <= j ==> a[k] == old(a[k])
    {
      a[i], a[j] := a[j], a[i];
      i, j := i + 1, j - 1;
    }
    ReversedIndex(old(a[..]));
  }

  /** `Chain`, as a function of the error and the configuration its options give. */
  function ChainWith(e: Error, c: SanitizeConfig): (r: seq<string>)
    ensures 1 <= |r| <= Depth(e) + 1
  {
    if Unwrappable(e) then
      var walk := Walk([], e, Unwrap(e), c);
      if c.noInverseOrder then walk else Reversed(walk)
    else
      [SanitizeString(Message(e), c)]
  }

  /** The root's sanitized message comes first by default and last under `WithNormalOrder`. */
  lemma ChainEndsAtRoot(e: Error, c: SanitizeConfig)
    ensures var r := ChainWith(e, c);
      (c.noInverseOrder ==> r[|r| - 1] == SanitizeString(Message(Root(e)), c)) &&
      (!c.noInverseOrder ==> r[0] == SanitizeString(Message(Root(e)), c))
  {
    var root := SanitizeString(Message(Root(e)), c);
    if Unwrappable(e) {
      var walk := Walk([], e, Unwrap(e), c);
      WalkEndsAtRoot([], e, Unwrap(e), c);
      assert walk[|walk| - 1] == root;
      if c.noInverseOrder {
        assert ChainWith(e, c) == walk;
      } else {
        ReversedFirst(walk);
        assert ChainWith(e, c) == Reversed(walk);
      }
    } else {
      assert Root(e) == e;
      assert ChainWith(e, c) == [root];
    }
  }

  /** `Chain(err, opts...)`: never empty, at most one element per `Unwrap` link plus one. */
  function Chain(e: Error, opts: seq<SanitizeOpt>): (r: seq<string>)
    ensures 1 <= |r| <= Depth(e) + 1
    ensures !Unwrappable(e) ==> r == [SanitizeString(Message(e), ConfigOf(opts))]
  {
    ChainWith(e, ConfigOf(opts))
  }

  /** The loop of `Chain`: `unwrapBuildChain` is called while it says there is more. */
  method BuildWalk(err: Error, c: SanitizeConfig) returns (chain: seq<string>)
    requires Unwrappable(err)
    ensures chain == Walk([], err, Unwrap(err), c)
  {
    chain := [];
    var current: Option<Error> := Some(err);
    var next: Option<Error> := Some(Unwrap(err));
    var hasNext := true;
    while hasNext
      invariant hasNext ==> current.Some? && next.Some? && Unwrappable(current.value) && next.value == Unwrap(current.value)
      invariant hasNext ==> Walk(chain, current.value, next.value, c) == Walk([], err, Unwrap(err), c)
      invariant !hasNext ==> chain == Walk([], err, Unwrap(err), c)
      decreases if hasNext && current.Some? then Depth(current.value) + 1 else 0
    {
      current, next, hasNext, chain := UnwrapBuildChain(current.value, next.value, chain, c);
    }
  }

  /** The slice handed to `reverse`, reversed in place in an array of its own. */
  method ReverseSlice(chain: seq<string>) returns (r: seq<string>)
    ensures r == Reversed(chain)
  {
    var a := new string[|chain|](i requires 0 <= i < |chain| => chain[i]);
    assert a[..] == chain;
    Reverse(a);
    r := a[..];
  }

  /**
   * `Chain` as the Go code runs it: configure, loop over `unwrapBuildChain`
   * while it says to go on, then reverse the slice in place unless
   * `WithNormalOrder` was given.
   */
  method BuildChain(err: Error, opts: seq<SanitizeOpt>) returns (chain: seq<string>)
    ensures chain == Chain(err, opts)
  {
    var c := Configure(opts);
    if Unwrappable(err) {
      chain := BuildWalk(err, c);
      if !c.noInverseOrder {
        chain := ReverseSlice(chain);
      }
    } else {
      chain := [SanitizeString(Message(err), c)];
    }
  }
}
