# gerr, modelled in Dafny

gerr is a small Go library for chains of errors. `Chain` takes an error
apart along its `Unwrap` links into the text each layer added. It removes
the cause's message from each layer, trims what is left (a custom
separator, white space, colons), and returns the pieces root first (or
outermost first under `WithNormalOrder`). Two error values sit on top of
the engine:

- `kind`: what went wrong, with the separator in effect when it was made.
- `wrapped`: a kind plus one nested error that carries the context.

Both offer `Add`, `Error`, `Chain`, `Is` and `Sanitize`. The constructors
are `New` with its `WithErr` options, and `AsGrr`. `New` normalises an
error that already wraps others: it runs `Chain` over it (root first),
makes the last element, the outermost layer's text, the kind, and
re-applies every other text as a `WithErr`, root first.

The model is split by source file:

- `errors.dfy` (module `GoErrors`): Go errors as one closed datatype, `Error`.
  - `Plain`: `errors.New`, or `fmt.Errorf` without `%w`.
  - `Wrapping`: `fmt.Errorf` with one `%w`.
  - `KindError` and `WrappedError`: the package's own types.
  - `Message` stands for `Error()`. `Unwrappable` stands for the run-time test for an `Unwrap` method. `Unwrap`, `Root` and `Depth` walk the links.
- `strings.dfy` (module `GoStrings`): the parts of Go's `strings` package the engine calls.
- `chain.dfy` (module `Chains`): the engine of chain.go.
  - The sanitize options and `sanitizeConfig`, as values.
  - The option loop (`Configure`).
  - The walk, as the recursive function `Walk` and as the loop method `BuildChain` over `UnwrapBuildChain`, proved equal.
  - `reverse`, as an in-place array method.
- `chain_lemmas.dfy` (module `ChainProperties`): what the engine promises.
  - The two orders are reverses of each other.
  - A chain of layers joined by a separator comes back apart into exactly those layers.
- `wrapped.dfy` (module `WrappedErrors`): `wrapped`, `newWrapped`, `newWrappedFromWrappedError` and the `WithErr` closure.
  - Each loop of the source is a method proved equal to a function.
- `kind.dfy` (module `Kinds`) and `error.dfy` (module `Gerr`): `kind`, `New`, `AsGrr` and the `Grr` interface.
- `gerr_lemmas.dfy` (module `GerrProperties`): how `New`, `WithErr`, `Add` and `Is` fit together.

All values are immutable datatypes, just as the Go code's receivers are
values. The one exception is the array that `Chains.Reverse` reverses in
place, as `reverse` does to its slice.

The package-wide separator (`separator()`, set through configuration.go) is
an explicit parameter `sep` of every operation that reads it. Elements of a
chain are `errors.New` values in Go and their texts here.

Where the code and its tests disagree, the model follows the code:

- `wrapped.Chain` passes no `WithNormalOrder`, so it is root first, like every default `Chain` (chain.go:58-60). wrapped_test.go:77, 88 and 99 expect outermost first. `GerrProperties.WrappedChainRoundTrip` states the order the code produces.
- `wrapped.Is` compares the kind's text and each chain element, never the whole message (wrapped.go:65-76). wrapped_test.go:285 relies on the whole message matching. `GerrProperties.IsIgnoresWholeMessage` shows a value that does not recognise its own message.
- `newWrappedFromWrappedError` takes the chain in the default, root-first order (wrapped.go:23). Its last element is therefore the outermost layer, and that layer becomes the kind. The other layers become `WithErr` options, root first, so the original nesting is rebuilt (`GerrProperties.NewOfLayers`).

## Model

| member | source | states |
|---|---|---|
| `GoErrors.Unwrap` | wrapped.go:84-86 | unwrapping takes exactly one link off: the cause is one level shallower |
| `GoErrors.Root` | chain.go:68-84 | following `Unwrap` ends at an error without `Unwrap`, and only an error without links is its own root |
| `GoErrors.MessageOfGrr` | kind.go:22-24 | a kind reads as the error it holds; a `wrapped` reads as its kind's text, then the kind's separator, then the text of the nested error that `Unwrap` returns (wrapped.go:59-61) |
| `GoErrors.NewKind` | kind.go:4-9 | a new kind renders as the error it holds and records the separator in effect now |
| `GoStrings.TrimPrefix` | chain.go:124-126 | without a leading occurrence the string is unchanged; the result is never longer |
| `GoStrings.TrimPrefixDrops` | chain.go:124-126 | with a leading occurrence the input is exactly that occurrence followed by the result |
| `GoStrings.TrimSuffix` | chain.go:124-126 | without a trailing occurrence the string is unchanged; the result is never longer |
| `GoStrings.TrimSuffixDrops` | chain.go:124-126 | with a trailing occurrence the input is exactly the result followed by that occurrence |
| `GoStrings.SpanStartSkipsSpace` | chain.go:129-131 | the scan from the front passes only white space and stops at the end or at the first character that is not white space |
| `GoStrings.SpanStopSkipsSpace` | chain.go:129-131 | the scan from the back passes only white space and stops at the front bound or after the last character that is not white space |
| `GoStrings.TrimSpace` | chain.go:129-131 | never longer than the input (what it removes is `GoStrings.TrimSpaceMiddle`) |
| `GoStrings.TrimSpaceBetween` | chain.go:129-131 | text between leading and trailing white space, starting and ending with something else, is what the trim gives back |
| `GoStrings.TrimSpaceOfPadded` | chain.go:129-131 | text that neither starts nor ends with white space, followed only by white space, is what the trim gives back |
| `GoStrings.TrimSpaceMiddle` | chain.go:129-131 | the result is the middle of the input between a white-space run in front and one behind, and neither starts nor ends with white space |
| `GoStrings.IndexFrom` | chain.go:111-114 | the position found, if any, is at or after the start and leaves room for the pattern |
| `GoStrings.IndexFromFirst` | chain.go:111-114 | the position found is an occurrence and no earlier position from the start is one; -1 means there is no occurrence at all |
| `GoStrings.RemoveFirst` | chain.go:111-114 | removing an occurrence either leaves the string or shortens it by exactly the pattern's length |
| `GoStrings.RemoveFirstAtFirstOccurrence` | chain.go:111-114 | at the first occurrence, exactly that occurrence is cut out |
| `GoStrings.RemoveFirstAbsent` | chain.go:111-114 | a pattern that does not occur removes nothing |
| `GoStrings.RemoveFirstOfSuffix` | chain.go:111-114 | when the cause's message occurs only at the end of a layer's message, removing it leaves exactly the layer's own text |
| `Chains.ApplyOpt` | chain.go:8-36 | each option closure sets its own field of the configuration and leaves the others as they were; `WithTrimCustom(t)` replaces any earlier custom trim by `t` |
| `Chains.ApplyOptIdempotent` | chain.go:8-36 | giving the same option twice is giving it once |
| `Chains.ApplyOptCommutes` | chain.go:8-36 | two options commute unless both are `WithTrimCustom` |
| `Chains.ConfigOf` | chain.go:8-47 | each flag is set iff its option was given; the custom trim is unset iff no `WithTrimCustom` was given |
| `Chains.LastTrimCustomWins` | chain.go:23-28 | when several `WithTrimCustom` are given, the last one's string is the custom trim |
| `Chains.Configure` | chain.go:44-47 | the option loop yields the configuration of the options applied in order |
| `Chains.TrimCustom` | chain.go:124-126 | never longer; an empty target, or one at neither end, changes nothing |
| `Chains.TrimCustomExact` | chain.go:124-126 | the result is the input less a trailing target when there is one, and then less a leading target of what is left when there is one |
| `Chains.TrimSpaces` | chain.go:129-131 | never longer than the input (what is removed is `GoStrings.TrimSpaceMiddle`) |
| `Chains.TrimColons` | chain.go:134-136 | never longer; text with a colon at neither end is unchanged |
| `Chains.TrimColonsExact` | chain.go:134-136 | the result is the input less a trailing colon when there is one, and then less a leading colon of what is left when there is one |
| `Chains.SanitizeString` | chain.go:97-108 | without options the text is unchanged; sanitizing never lengthens it |
| `Chains.RemoveEqualPart` | chain.go:111-114 | a layer equal to its cause adds nothing; otherwise the delta is the whole message or exactly the cause's length shorter |
| `Chains.SanitizeAppend` | chain.go:88-94 | the slice grows by at most one element, exactly when the raw delta is not empty (tested before sanitizing), and that element is the sanitized delta |
| `Chains.Walk` | chain.go:51-57 | the walk appends at least one and at most depth-plus-one elements and keeps what was there |
| `Chains.WalkEndsAtRoot` | chain.go:51-57 | the last element of the walk is the root's sanitized message |
| `Chains.BuildWalk` | chain.go:51-57 | the loop over `unwrapBuildChain` computes `Walk` from the empty slice |
| `Chains.UnwrapBuildChain` | chain.go:68-84 | one step goes on iff both errors have `Unwrap`, moves both one link down, and leaves the outcome of the whole walk unchanged; the last step appends the terminal message |
| `Chains.Reversed` | chain.go:117-121 | the length is kept |
| `Chains.ReversedIndex` | chain.go:117-121 | element `k` of the result is element `len-1-k` of the input |
| `Chains.ReversedFirst` | chain.go:117-121 | the first element of the reverse is the last of the input |
| `Chains.Reverse` | chain.go:117-121 | the array afterwards holds the reverse of what it held before |
| `Chains.ReverseSlice` | chain.go:58-60 | reversing the slice in place yields `Reversed` of it |
| `Chains.ChainWith` | chain.go:48-63 | never empty, at most depth-plus-one elements |
| `Chains.ChainEndsAtRoot` | chain.go:48-63 | the root's sanitized message is first by default and last under `WithNormalOrder` |
| `Chains.Chain` | chain.go:43-64 | never empty, at most depth-plus-one elements; an error without `Unwrap` gives exactly its sanitized message |
| `Chains.BuildChain` | chain.go:43-64 | the loop over `unwrapBuildChain` followed by the in-place reversal computes `Chain` |
| `ChainProperties.ReversedTwice` | chain.go:117-121 | reversing twice gives the original |
| `ChainProperties.ReversedConcat` | chain.go:117-121 | reversing a concatenation reverses and swaps the parts |
| `ChainProperties.InReversed` | chain.go:117-121 | reversal keeps exactly the same elements |
| `ChainProperties.WalkIgnoresOrder` | chain.go:51-57 | the walk does not depend on the order flag |
| `ChainProperties.DefaultOrderIsReverseOfNormal` | chain.go:58-60 | the default chain is exactly the reverse of the `WithNormalOrder` chain |
| `ChainProperties.ConfigOfNormalOrder` | chain.go:31-36 | adding `WithNormalOrder` last sets the order flag and nothing else |
| `ChainProperties.SanitizeIgnoresOrder` | chain.go:97-108 | sanitizing does not read the order flag |
| `ChainProperties.Layered` | chain_test.go:249-261 | an error built from n layers by `fmt.Errorf("%v%s%w")` has depth n and the bottom text as its root |
| `ChainProperties.Sanitized` | chain.go:97-108 | one sanitized delta per layer |
| `ChainProperties.LayeredLayers` | chain.go:111-114 | each layer of a separable layered error adds exactly its text and the separator in front of its cause |
| `ChainProperties.LayerDelta` | chain.go:88-94 | a layer whose message is its text, the separator and its cause's message, with the cause only at the end, appends exactly its sanitized text plus separator |
| `ChainProperties.WalkLayered` | chain.go:51-57 | the walk over layers yields each layer's sanitized text plus separator, outermost first, then the sanitized bottom |
| `ChainProperties.WalkCongruent` | chain.go:88-94 | the walk sees the top error only through its message and its cause |
| `ChainProperties.ChainOfLayers` | chain.go:43-64 | `Chain` of a layered error under any options is the sanitized layers plus the bottom, in the configured order |
| `ChainProperties.WalkLayeredFromEmpty` | chain.go:51-57 | from the empty slice, the walk over layers is the sanitized layers then the sanitized bottom |
| `ChainProperties.ChainCongruent` | chain.go:43-64 | `Chain` sees an error with `Unwrap` only through its message and its cause |
| `ChainProperties.ChainOfTopLayer` | chain.go:43-64 | the same holds for any top error, `wrapped` included, whose message is its layer, the separator and its cause's message |
| `ChainProperties.TrimCustomLayer` | chain.go:124-126 | trimming the separator from a layer's text plus separator gives the text back |
| `ChainProperties.SanitizedClean` | chain.go:97-108 | trimming the separator gives every clean layer and the bottom back unchanged |
| `ChainProperties.ChainRoundTrip` | chain.go:43-64 | round trip: the layers joined by the separator come back as bottom then layers innermost first by default, and outermost first under `WithNormalOrder` |
| `ChainProperties.LayeredRoundTrip` | chain.go:43-64 | the round trip for the test fixtures `top1, mid2 .. botN` built by repeated `fmt.Errorf` |
| `ChainProperties.ColonDelta` | chain.go:111-114 | the text that `x:` adds to its cause `x` is the colon |
| `ChainProperties.ColonLayerWalk` | chain.go:88-94 | the walk over `x:` above `x` with colon trimming is an empty element, then `x` trimmed |
| `ChainProperties.EmptyAfterTrimIsKept` | chain.go:88-94 | for every `x`, the chain of `x:` over `x` with colon trimming is `x` trimmed then an empty element: a delta that only becomes empty by trimming is still appended |
| `ChainProperties.SpacesAndColons` | chain.go:8-20 | `WithTrimSpaces` then `WithTrimColons` configures both trims and nothing else |
| `ChainProperties.SpaceColonLayer` | chain.go:97-108 | the space trim of a layer's `x + ": "` keeps the colon, and the colon trim then gives `x` back |
| `ChainProperties.ColonsBeforeSpacesKeepColon` | chain.go:101-106 | the order matters: trimming colons before spaces would leave `x + ":"` |
| `ChainProperties.SpaceColonBottom` | chain.go:97-108 | a bottom text neither padded nor with a colon at either end survives both trims |
| `ChainProperties.SanitizedSpaceColon` | chain.go:97-108 | every clean layer joined with ": " comes out of both trims as it was |
| `ChainProperties.SpaceColonRoundTrip` | chain_test.go:114-171 | the fixtures joined with ": " come back root first, each layer and the bottom unchanged, under `WithTrimSpaces` and `WithTrimColons` |
| `ChainProperties.SanitizedEach` | chain.go:88-94 | when each layer's text and separator sanitize to the matching given text, the sanitized layers are exactly those texts |
| `ChainProperties.ColonRoundTrip` | chain_test.go:21-66 | the fixtures joined with ":" come back root first and unchanged under `WithTrimColons` alone |
| `ChainProperties.SpaceRoundTrip` | chain_test.go:68-113 | the fixtures joined with " " come back root first and unchanged under `WithTrimSpaces` alone |
| `ChainProperties.TrimCustomEnclosed` | chain.go:124-126 | `trimCustom` takes the trimmed text off both ends of any text it encloses |
| `ChainProperties.EnclosedCustomRoundTrip` | chain_test.go:219-237 | the fixtures that write "%custom%" before each layer and as the separator come back root first, without it, under `WithTrimCustom` of the same text |
| `ChainProperties.PrependedLayer` | chain.go:97-108 | under both trims a layer written " :" + text + ": " comes out as the text, whatever it holds |
| `ChainProperties.PrependedBottom` | chain.go:97-108 | under both trims the bottom " :" + text comes out as the text when that text ends with neither white space nor a colon |
| `ChainProperties.PrependedSpaceColonRoundTrip` | chain_test.go:181-199 | the fixtures that prepend " :" to every layer, joined with ": ", come back root first under `WithTrimSpaces` and `WithTrimColons` |
| `ChainProperties.RepeatedLayerIsDropped` | chain.go:88-94 | a layer whose message equals its cause's contributes no element |
| `WrappedErrors.Add` | wrapped.go:48-56 | the kind is kept; the new nested error unwraps to the old one, reads `x + separator + old`, is one link deeper and has the same root |
| `WrappedErrors.ApplyOption` | error.go:17-26 | `WithErr` sets the nested error when there is none, and otherwise wraps the existing one with the given text and the kind's separator |
| `WrappedErrors.ApplyAll` | wrapped.go:13-15 | running the options keeps the kind; the nested error is set iff there was one or some option; each option adds one link |
| `WrappedErrors.WithErrs` | wrapped.go:28-30 | one `WithErr(errors.New(t))` per chain text, in order |
| `WrappedErrors.Normalize` | wrapped.go:19-35 | the caller's options survive at the end; an error without `Unwrap` is returned unchanged; a replaced kind is a plain error and brings at least one option in front |
| `WrappedErrors.ErrOptions` | wrapped.go:25-30 | the loop makes exactly the `WithErr` options of the chain texts |
| `WrappedErrors.NormalizeSplitsChain` | wrapped.go:19-35 | an error with `Unwrap` is kept with the caller's options exactly when its chain has at most one element; otherwise its chain is the texts of the new `WithErr` options, in order, then the new kind's text |
| `WrappedErrors.NewWrappedFromWrappedError` | wrapped.go:19-35 | the method computes `Normalize` |
| `WrappedErrors.NewWrappedOf` | wrapped.go:8-17 | the kind is the normalised error under the current separator; there is no nested error iff normalisation leaves no option, and then the kind reads as the input |
| `WrappedErrors.NewWrappedOfOne` | wrapped.go:8-17 | `newWrapped` of an error without `Unwrap` and one `WithErr(x)` is the kind under the current separator over `x` |
| `WrappedErrors.ApplyOptions` | wrapped.go:13-15 | the loop applies the options in order |
| `WrappedErrors.NewWrapped` | wrapped.go:8-17 | the method computes `NewWrappedOf` |
| `WrappedErrors.Sanitize` | wrapped.go:43-45 | the result is the receiver's own kind, separator included: a `Grr` without `Unwrap` whose message is the whole message less the separator and the nested error's message |
| `WrappedErrors.ChainOf` | wrapped.go:79-81 | never empty, at most depth-plus-two elements, and the root's text trimmed of the separator comes first |
| `WrappedErrors.Contains` | wrapped.go:70-74 | the scan finds the text iff it is an element of the chain |
| `WrappedErrors.Is` | wrapped.go:65-76 | true iff the target's text is the kind's or an element of the chain |
| `Kinds.Sanitize` | kind.go:17-19 | the kind is returned unchanged, a `Grr` without `Unwrap` |
| `Kinds.IsByText` | kind.go:32-34 | a kind recognises itself, the error it holds and its sanitized self, and sees a target only through the target's text |
| `Kinds.Add` | kind.go:27-34 | `newWrapped(k, WithErr(x))` nests the whole kind under the current separator over `x`, reads `k + sep + x`, sanitizes to a kind reading as `k`, and is recognised by `Is` for every target the kind is |
| `Kinds.ChainOf` | kind.go:37-39 | a kind's chain is the one element: its text trimmed of its own separator |
| `Gerr.NewOf` | error.go:5-11 | `New` is a `Grr`; it is the kind iff no option is left to apply, and then it holds the given error under the current separator |
| `Gerr.New` | error.go:5-11 | the method computes `NewOf` |
| `Gerr.AsGrr` | error.go:46-54 | nil gives nil, a `Grr` is returned as it is, any other error becomes `New(err)` |
| `Gerr.Sanitize` | error.go:41-42 | sanitizing either `Grr` gives a kind: the receiver itself when it is a kind, and the receiver's own kind, separator included, when it is a `wrapped` |
| `Gerr.SanitizeIdempotent` | wrapped.go:43-45 | sanitizing twice is sanitizing once |
| `GerrProperties.WithErrsConcat` | wrapped.go:31 | options for consecutive texts are the options of each part, in order |
| `GerrProperties.StackedOptions` | error.go:13-26 | the first `WithErr` is the original error and each later one wraps it, so the last one given is outermost |
| `GerrProperties.LayersOfIsLayered` | wrapped.go:54 | a chain of `fmt.Errorf` layers is determined by its texts and its bottom |
| `GerrProperties.ReversedLayers` | wrapped.go:23-27 | the root-first chain of the layers ends with the outermost layer, which is the element that becomes the kind |
| `GerrProperties.NormalizeLayers` | wrapped.go:19-35 | on a clean chain the outermost layer becomes the kind, and the bottom then the inner layers become `WithErr` options before the caller's |
| `GerrProperties.NewOfLayers` | error.go:13-16 | `New` over a clean chain with `WithErr` options keeps the outermost layer as the kind and stacks the new texts right under it |
| `GerrProperties.StackOrder` | wrapped.go:23-31 | below the new kind the root comes first, and the rest reads back outermost first with the caller's texts on top |
| `GerrProperties.NewOfStacked` | wrapped.go:8-35 | when normalising yields `WithErr` options, `New` is the kind over the first text with each later text wrapped around it |
| `GerrProperties.NewKeepsChain` | wrapped.go:8-35 | `New` without options keeps the cause of a clean chain as the nested error and does not change the message |
| `GerrProperties.NewChainRoundTrip` | wrapped.go:79-81 | the chain of what `New` built from a clean chain is that chain's own, root first |
| `GerrProperties.NewIsEveryLayer` | wrapped.go:65-76 | `Is` on what `New` built from a clean chain recognises exactly the texts of its layers and its bottom |
| `GerrProperties.NewOfShortChain` | error.go:5-11 | `New` without options on an error with `Unwrap` whose chain has at most one element gives the bare kind of that error |
| `GerrProperties.NewOfRepeatedLayer` | chain.go:88-94 | an error that wraps an error with its own text is kept whole as the kind |
| `GerrProperties.NewOfUnwrappable` | error.go:5-26 | an error without `Unwrap` gives the bare kind without options, and otherwise the first `WithErr` innermost and the last outermost |
| `GerrProperties.WrappedChainRoundTrip` | wrapped.go:79-81 | a `wrapped` over clean layers has all of them as its chain, root first |
| `GerrProperties.AddedIsFound` | wrapped.go:48-56 | `Add` puts the new text right under the kind, so the chain has it second from the end and `Is` recognises it |
| `GerrProperties.OneLayerChain` | wrapped.go:79-81 | the chain of a kind `top` over `bottom` is `bottom` then `top` |
| `GerrProperties.IsIgnoresWholeMessage` | wrapped.go:65-76 | `Is` never compares the whole message: a kind `top` over `bottom` reads `top + sep + bottom` and does not recognise that text |

## Left out

- The package-wide separator of configuration.go, a function-valued variable with setters, is not modelled. The separator it yields is the parameter `sep`.
- The Go type assertions `err.(interface{ Unwrap() error })` and `err.(Grr)` are decided by the variant of the closed datatype. A user type that embeds a `Grr` or adds its own `Unwrap` is not modelled.
- Nil errors are not modelled. This covers `WithErr(nil)`, a nil target for `Is`, and an `Unwrap` that returns nil, all of which panic or misbehave in the code. `AsGrr(nil)` is modelled, with `Option`.
- `Unwrap` on `wrapped` and `Error` on both types have no separate members: they are `GoErrors.Unwrap` and `GoErrors.Message` on the `WrappedError` and `KindError` variants.
- Options other than `WithErr` are not modelled. `Option` is an open function type in Go, but the package defines only `WithErr`.
- Strings are sequences of characters, not UTF-8 bytes. `strings.TrimSpace` on invalid UTF-8 and byte offsets are not modelled. White space is the Unicode White_Space set that `unicode.IsSpace` uses.
- Pointer identity, `reflect.DeepEqual` and the interplay with `errors.Is`/`errors.As` are not modelled. Errors compare by structure and by message.
- `Chain` returns the elements' texts, not fresh `errors.New` values.
- The example program and the test-only helpers are not modelled.
- Chains.TrimCustom: its own contract gives bounds and the unchanged cases only; what it removes is the lemma `Chains.TrimCustomExact`, kept apart so that reasoning about sanitizing does not carry it everywhere.
- Chains.TrimColons: bounds and the unchanged case only; what it removes is `Chains.TrimColonsExact`.
- GoStrings.TrimSpace: the bound only; what it removes is `GoStrings.TrimSpaceMiddle`.
- Chains.ConfigOf: which `WithTrimCustom` wins is not in its own contract but in `Chains.LastTrimCustomWins`.
- Chains.TrimSpaces: the bound only; what it removes is `GoStrings.TrimSpaceMiddle`.
- GoStrings.TrimPrefix: bounds and the unchanged case only; the dropped prefix is `GoStrings.TrimPrefixDrops`.
- GoStrings.TrimSuffix: bounds and the unchanged case only; the dropped suffix is `GoStrings.TrimSuffixDrops`.
- Chains.Walk: its own contract gives bounds and the kept prefix; its last element is `Chains.WalkEndsAtRoot`.
- Chains.ChainWith: bounds only; where the root's text lands is `Chains.ChainEndsAtRoot`.
- Chains.Reversed: the length only; the elements are `Chains.ReversedIndex`.
- `GerrProperties.NewIsEveryLayer`, `GerrProperties.NewOfLayers` and the round-trip lemmas: these hold for clean chains only. A layer must not start with the separator, the bottom must neither start nor end with it, and each cause's message must occur in its layer only at the end. For any layered error, clean or not and under any options, `ChainProperties.ChainOfLayers` and `ChainProperties.ChainOfTopLayer` still give the exact chain: each layer's text and separator sanitized, then the bottom.
